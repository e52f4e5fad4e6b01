/**
 Polynomials over the field of two elements, written as naturals: bit i is the coefficient
 of x^i, addition is the bitwise exclusive or, and multiplication by x is doubling.
 */
module GF2 {
  import opened Words

  function Xor(a: nat, b: nat): nat
    decreases a + b
  {
    if a == 0 && b == 0 then 0 else 2 * Xor(a / 2, b / 2) + (if a % 2 != b % 2 then 1 else 0)
  }

  lemma XorHalves(a: nat, b: nat)
    ensures Xor(a, b) == 2 * Xor(a / 2, b / 2) + (if a % 2 != b % 2 then 1 else 0)
    ensures Xor(a, b) / 2 == Xor(a / 2, b / 2) && Xor(a, b) % 2 == (if a % 2 != b % 2 then 1 else 0)
  {
    if a == 0 && b == 0 {
      assert Xor(0, 0) == 0;
    }
  }

  lemma {:induction false} XorCommutes(a: nat, b: nat)
    ensures Xor(a, b) == Xor(b, a)
    decreases a + b
  {
    if a != 0 || b != 0 {
      XorCommutes(a / 2, b / 2);
    }
  }

  lemma {:induction false} XorZero(a: nat)
    ensures Xor(a, 0) == a && Xor(0, a) == a
  {
    if a != 0 {
      XorZero(a / 2);
    }
  }

  lemma {:induction false} XorSelf(a: nat)
    ensures Xor(a, a) == 0
  {
    if a != 0 {
      XorSelf(a / 2);
    }
  }

  lemma {:induction false} XorAssociates(a: nat, b: nat, c: nat)
    ensures Xor(Xor(a, b), c) == Xor(a, Xor(b, c))
    decreases a + b + c
  {
    if a != 0 || b != 0 || c != 0 {
      XorHalves(a, b);
      XorHalves(b, c);
      XorHalves(Xor(a, b), c);
      XorHalves(a, Xor(b, c));
      XorAssociates(a / 2, b / 2, c / 2);
      hide Xor;
    }
  }

  /** (a + b) + (c + d) == (a + c) + (b + d) */
  lemma XorSwap(a: nat, b: nat, c: nat, d: nat)
    ensures Xor(Xor(a, b), Xor(c, d)) == Xor(Xor(a, c), Xor(b, d))
  {
    hide Xor;
    XorAssociates(a, b, Xor(c, d));
    XorAssociates(b, c, d);
    XorCommutes(b, c);
    XorAssociates(c, b, d);
    XorAssociates(a, c, Xor(b, d));
  }

  /** Adding the same term twice changes nothing. */
  lemma XorCancels(a: nat, b: nat)
    ensures Xor(Xor(a, b), b) == a
  {
    hide Xor;
    XorAssociates(a, b, b);
    XorSelf(b);
    XorZero(a);
  }

  lemma XorDoubles(a: nat, b: nat)
    ensures Xor(2 * a, 2 * b) == 2 * Xor(a, b)
  {
    XorHalves(2 * a, 2 * b);
  }

  /** a x^k */
  function Shift(a: nat, k: nat): nat { if k == 0 then a else 2 * Shift(a, k - 1) }

  lemma {:induction false} ShiftIs(a: nat, k: nat)
    ensures Shift(a, k) == a * Pow2(k)
  {
    if k > 0 {
      ShiftIs(a, k - 1);
      assert a * (2 * Pow2(k - 1)) == 2 * (a * Pow2(k - 1));
    }
  }

  lemma {:induction false} ShiftAdds(a: nat, j: nat, k: nat)
    ensures Shift(Shift(a, j), k) == Shift(a, j + k)
  {
    if k > 0 {
      ShiftAdds(a, j, k - 1);
    }
  }

  lemma {:induction false} XorShifts(a: nat, b: nat, k: nat)
    ensures Xor(Shift(a, k), Shift(b, k)) == Shift(Xor(a, b), k)
  {
    if k > 0 {
      XorShifts(a, b, k - 1);
      XorDoubles(Shift(a, k - 1), Shift(b, k - 1));
      hide Xor;
    }
  }

  /** The terms of degree k and more, divided by x^k. */
  function High(a: nat, k: nat): nat { if k == 0 then a else High(a / 2, k - 1) }

  /** The terms of degree below k. */
  function Low(a: nat, k: nat): nat { if k == 0 then 0 else 2 * Low(a / 2, k - 1) + a % 2 }

  lemma {:induction false} HighAndLow(a: nat, k: nat)
    ensures a == Shift(High(a, k), k) + Low(a, k) && Low(a, k) < Pow2(k)
    ensures a < Pow2(k) <==> High(a, k) == 0
  {
    if k > 0 {
      HighAndLow(a / 2, k - 1);
    }
  }

  lemma {:induction false} HighOfShift(a: nat, d: nat, k: nat)
    ensures High(Shift(a, k), d + k) == High(a, d)
  {
    if k > 0 {
      HighOfShift(a, d, k - 1);
    }
  }

  lemma LowHalves(a: nat, k: nat)
    requires k > 0
    ensures Low(a, k) == 2 * Low(a / 2, k - 1) + a % 2 && Low(a, k) / 2 == Low(a / 2, k - 1) && Low(a, k) % 2 == a % 2
    ensures High(a, k) == High(a / 2, k - 1)
  {
  }

  /** The low terms and the others are added apart. */
  lemma {:induction false} XorSplits(a: nat, b: nat, k: nat)
    ensures High(Xor(a, b), k) == Xor(High(a, k), High(b, k)) && Low(Xor(a, b), k) == Xor(Low(a, k), Low(b, k))
  {
    if k == 0 {
      XorZero(0);
    } else {
      hide *;
      XorHalves(a, b);
      XorSplits(a / 2, b / 2, k - 1);
      LowHalves(a, k);
      LowHalves(b, k);
      LowHalves(Xor(a, b), k);
      XorHalves(Low(a, k), Low(b, k));
    }
  }

  lemma XorFits(a: nat, b: nat, k: nat)
    requires a < Pow2(k) && b < Pow2(k)
    ensures Xor(a, b) < Pow2(k)
  {
    HighAndLow(a, k);
    HighAndLow(b, k);
    HighAndLow(Xor(a, b), k);
    XorSplits(a, b, k);
    XorZero(0);
  }

  /** Terms of different degrees are simply added. */
  lemma {:induction false} XorApart(h: nat, l: nat, k: nat)
    requires l < Pow2(k)
    ensures Xor(Shift(h, k), l) == Shift(h, k) + l
  {
    XorHalves(Shift(h, k), l);
    if k == 0 {
      XorZero(h);
    } else {
      XorApart(h, l / 2, k - 1);
      hide Xor;
    }
  }

  // ---- the generator polynomial ----

  const POLY: nat := 0x1_1021

  /** q times x^16 + x^12 + x^5 + 1 */
  function Times(q: nat): nat { Xor(Xor(q * 65536, q * 4096), Xor(q * 32, q)) }

  lemma TimesLinear(a: nat, b: nat)
    ensures Times(Xor(a, b)) == Xor(Times(a), Times(b))
  {
    hide Xor;
    AsShifts(a);
    AsShifts(b);
    AsShifts(Xor(a, b));
    XorShifts(a, b, 16);
    XorShifts(a, b, 12);
    XorShifts(a, b, 5);
    XorSwap(a * 65536, b * 65536, a * 4096, b * 4096);
    XorSwap(a * 32, b * 32, a, b);
    XorSwap(Xor(a * 65536, a * 4096), Xor(b * 65536, b * 4096), Xor(a * 32, a), Xor(b * 32, b));
  }

  lemma AsShifts(q: nat)
    ensures Shift(q, 16) == q * 65536 && Shift(q, 12) == q * 4096 && Shift(q, 5) == q * 32
  {
    Powers();
    ShiftIs(q, 16);
    ShiftIs(q, 12);
    ShiftIs(q, 5);
  }

  lemma Powers()
    ensures Pow2(16) == 65536 && Pow2(12) == 4096 && Pow2(5) == 32 && Pow2(8) == 256
  {
    Pow2Small();
    Pow2At8();
    PowerStep(2, 4, 3, 8);
    PowerStep(8, 256, 8, 256);
    PowerStep(2, 4, 2, 4);
    PowerStep(8, 256, 4, 16);
  }

  lemma TimesDoubles(q: nat)
    ensures Times(2 * q) == 2 * Times(q)
  {
    XorDoubles(q * 65536, q * 4096);
    XorDoubles(q * 32, q);
    XorDoubles(Xor(q * 65536, q * 4096), Xor(q * 32, q));
    hide Xor;
  }

  lemma TimesOne()
    ensures Times(1) == POLY && Times(0) == 0
  {
    Powers();
    AsShifts(1);
    AsShifts(17);
    XorApart(1, 4096, 16);
    XorApart(1, 1, 5);
    XorApart(17, 33, 12);
    XorZero(0);
    hide Xor;
  }

  /** A nonzero multiple of the generator has degree 16 at least. */
  lemma TimesIsLarge(q: nat)
    requires q > 0
    ensures Times(q) >= 65536
  {
    hide Xor, Pow2, Times, High;
    var d := Degree(q);
    var rest := Xor(q * 4096, Xor(q * 32, q));
    LowerTerms(q, d);
    assert Times(q) == Xor(q * 65536, rest) by { TimesParts(q); }
    XorSplits(q * 65536, rest, d + 16);
    HighAndLow(rest, d + 16);
    AsShifts(q);
    HighOfShift(q, d, 16);
    HighAndLow(q, d);
    XorZero(High(q, d));
    HighAndLow(Times(q), d + 16);
    Powers();
    Pow2Mono(16, d + 16);
  }

  lemma TimesParts(q: nat)
    ensures Times(q) == Xor(q * 65536, Xor(q * 4096, Xor(q * 32, q)))
  {
    hide Xor;
    XorAssociates(q * 65536, q * 4096, Xor(q * 32, q));
  }

  lemma LowerTerms(q: nat, d: nat)
    requires q < 2 * Pow2(d)
    ensures Xor(q * 4096, Xor(q * 32, q)) < Pow2(d + 16)
  {
    Powers();
    Pow2Add(d, 16);
    hide Xor, Pow2;
    assert Pow2(d + 16) == 65536 * Pow2(d);
    XorFits(q * 32, q, d + 16);
    XorFits(q * 4096, Xor(q * 32, q), d + 16);
  }

  function Degree(q: nat): (d: nat)
    requires q > 0
    ensures Pow2(d) <= q < 2 * Pow2(d)
  {
    if q == 1 then 0 else Degree(q / 2) + 1
  }

  lemma TimesParity(q: nat)
    ensures Times(q) % 2 == q % 2
  {
    hide Xor;
    XorParity(q * 65536, q * 4096);
    XorParity(q * 32, q);
    XorParity(Xor(q * 65536, q * 4096), Xor(q * 32, q));
    EvenMultiple(q, 32768);
    EvenMultiple(q, 2048);
    EvenMultiple(q, 16);
  }

  lemma EvenMultiple(q: nat, m: nat)
    ensures q * (2 * m) % 2 == 0
  {
    assert q * (2 * m) == 2 * (q * m);
  }

  lemma XorParity(a: nat, b: nat)
    ensures Xor(a, b) % 2 == (a % 2 + b % 2) % 2
  {
    XorHalves(a, b);
  }

  /** The generator divides no e x^k with e nonzero and of degree below 16. */
  lemma {:induction false} NoShortMultiple(q: nat, e: nat, k: nat)
    requires 0 < e < 65536 && Shift(e, k) == Times(q)
    ensures false
    decreases k
  {
    if k == 0 {
      if q == 0 {
        TimesOne();
      } else {
        TimesIsLarge(q);
      }
    } else {
      assert Shift(e, k) == 2 * Shift(e, k - 1);
      hide *;
      TimesParity(q);
      TimesDoubles(q / 2);
      assert q == 2 * (q / 2);
      NoShortMultiple(q / 2, e, k - 1);
    }
  }

  // ---- remainders ----

  /** a and b differ by a multiple of the generator. */
  ghost predicate Congruent(a: nat, b: nat) { exists q: nat :: Xor(a, Times(q)) == b }

  lemma CongruentSelf(a: nat)
    ensures Congruent(a, a)
  {
    TimesOne();
    XorZero(a);
    assert Xor(a, Times(0)) == a;
  }

  lemma CongruentTrans(a: nat, b: nat, c: nat)
    requires Congruent(a, b) && Congruent(b, c)
    ensures Congruent(a, c)
  {
    var p: nat :| Xor(a, Times(p)) == b;
    var q: nat :| Xor(b, Times(q)) == c;
    XorAssociates(a, Times(p), Times(q));
    TimesLinear(p, q);
    assert Xor(a, Times(Xor(p, q))) == c;
  }

  lemma CongruentSum(a: nat, b: nat, c: nat, d: nat)
    requires Congruent(a, b) && Congruent(c, d)
    ensures Congruent(Xor(a, c), Xor(b, d))
  {
    var p: nat :| Xor(a, Times(p)) == b;
    var q: nat :| Xor(c, Times(q)) == d;
    XorSwap(a, Times(p), c, Times(q));
    TimesLinear(p, q);
    assert Xor(Xor(a, c), Times(Xor(p, q))) == Xor(b, d);
  }

  lemma CongruentDoubled(a: nat, b: nat)
    requires Congruent(a, b)
    ensures Congruent(2 * a, 2 * b)
  {
    var q: nat :| Xor(a, Times(q)) == b;
    XorDoubles(a, Times(q));
    TimesDoubles(q);
    assert Xor(2 * a, Times(2 * q)) == 2 * b;
  }

  lemma {:induction false} CongruentShifted(a: nat, b: nat, k: nat)
    requires Congruent(a, b)
    ensures Congruent(Shift(a, k), Shift(b, k))
  {
    if k > 0 {
      CongruentShifted(a, b, k - 1);
      CongruentDoubled(Shift(a, k - 1), Shift(b, k - 1));
      hide Congruent;
    }
  }

  /** r is the remainder of a: congruent to it and of degree below 16. */
  ghost predicate IsRemainder(a: nat, r: nat) { r < 65536 && Congruent(a, r) }

  /** There is only one remainder. */
  lemma RemainderUnique(a: nat, r: nat, s: nat)
    requires IsRemainder(a, r) && IsRemainder(a, s)
    ensures r == s
  {
    var p: nat :| Xor(a, Times(p)) == r;
    var q: nat :| Xor(a, Times(q)) == s;
    XorSwap(a, Times(p), a, Times(q));
    XorSelf(a);
    TimesLinear(p, q);
    XorZero(Times(Xor(p, q)));
    assert Xor(r, s) == Times(Xor(p, q));
    Powers();
    XorFits(r, s, 16);
    if Xor(p, q) > 0 {
      TimesIsLarge(Xor(p, q));
    } else {
      TimesOne();
      XorCancels(r, s);
      XorZero(s);
    }
  }
}
