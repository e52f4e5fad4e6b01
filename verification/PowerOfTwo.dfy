/**
 Rounding up to a power of two by smearing the top bit of a 64-bit word downwards.
 */
module PowerOfTwo {
  import opened Words

  /** The bitwise or. */
  function Or(a: nat, b: nat): nat
    decreases a
  {
    if a == 0 then b
    else if b == 0 then a
    else 2 * Or(a / 2, b / 2) + (if a % 2 == 1 || b % 2 == 1 then 1 else 0)
  }

  /** The bitwise and. */
  function And(a: nat, b: nat): (r: nat)
    ensures r <= a
    decreases a
  {
    if a == 0 || b == 0 then 0 else 2 * And(a / 2, b / 2) + (if a % 2 == 1 && b % 2 == 1 then 1 else 0)
  }

  function BitAt(x: nat, k: nat): bool { if k == 0 then x % 2 == 1 else BitAt(x / 2, k - 1) }

  /** Bit by bit, the or has what either has, and the and what both have. */
  lemma {:induction false} BitsOf(a: nat, b: nat, k: nat)
    ensures BitAt(Or(a, b), k) <==> BitAt(a, k) || BitAt(b, k)
    ensures BitAt(And(a, b), k) <==> BitAt(a, k) && BitAt(b, k)
    decreases k
  {
    if k > 0 {
      BitsOf(a / 2, b / 2, k - 1);
    }
    NoBits(k);
  }

  lemma {:induction false} NoBits(k: nat)
    ensures !BitAt(0, k)
  {
    if k > 0 {
      NoBits(k - 1);
    }
  }

  lemma OrFits(a: u64, b: u64)
    ensures Or(a, b) < TWO64
  {
    Pow2At32();
    PowerStep(32, 0x1_0000_0000, 32, 0x1_0000_0000);
    OrLow(0, 64, a, b);
  }

  function BitLength(v: nat): nat { if v == 0 then 0 else 1 + BitLength(v / 2) }

  lemma {:induction false} BitLengthBounds(v: nat)
    ensures v < Pow2(BitLength(v))
    ensures v > 0 ==> Pow2(BitLength(v) - 1) <= v
  {
    if v > 0 {
      BitLengthBounds(v / 2);
    }
  }

  /** Or with a number of at most j bits only changes the low j bits, and sets all of its bits there. */
  lemma {:induction false} OrLow(h: nat, j: nat, l: nat, y: nat)
    requires l < Pow2(j) && y < Pow2(j)
    ensures h * Pow2(j) >= 0 && Or(h * Pow2(j) + l, y) == h * Pow2(j) + Or(l, y)
    ensures y <= Or(l, y) < Pow2(j)
  {
    MulMono(0, h, Pow2(j));
    if j > 0 {
      var a, half := h * Pow2(j) + l, h * Pow2(j - 1);
      assert h * Pow2(j) == 2 * half;
      MulMono(0, h, Pow2(j - 1));
      OrLow(h, j - 1, l / 2, y / 2);
      assert a / 2 == half + l / 2 && a % 2 == l % 2;
    }
  }

  /** The top k of the m bits of x are ones. */
  predicate TopOnes(x: nat, m: nat, k: nat)
    requires k <= m
  {
    Pow2(m) - Pow2(m - k) <= x < Pow2(m)
  }

  lemma HighPart(x: nat, m: nat, k: nat)
    requires k <= m && TopOnes(x, m, k)
    ensures x == (Pow2(k) - 1) * Pow2(m - k) + (x - (Pow2(m) - Pow2(m - k)))
    ensures x / Pow2(k) < Pow2(m - k)
  {
    Pow2Add(k, m - k);
    assert (Pow2(k) - 1) * Pow2(m - k) == Pow2(m) - Pow2(m - k);
    DivMod(x, Pow2(k));
    if x / Pow2(k) >= Pow2(m - k) {
      MulMono(Pow2(m - k), x / Pow2(k), Pow2(k));
    }
  }

  lemma QuotientAtLeast(x: nat, d: nat, q: int)
    requires d > 0 && d * q <= x
    ensures x / d >= q
  {
    DivMod(x, d);
    Distribute(d, x / d, -1);
    if x / d < q {
      MulMono(x / d + 1, q, d);
    }
  }

  lemma Distribute(d: int, a: int, b: int)
    ensures d * (a - b) == d * a - d * b
  {
  }

  /** The quotient starts with as many ones again. */
  lemma ShiftedOnes(x: nat, m: nat, k: nat)
    requires k <= m && TopOnes(x, m, k)
    ensures x / Pow2(k) >= Pow2(m - k) - (if 2 * k <= m then Pow2(m - 2 * k) else 1)
  {
    hide Pow2;
    Pow2Add(k, m - k);
    if 2 * k <= m {
      Pow2Add(k, m - 2 * k);
      Distribute(Pow2(k), Pow2(m - k), Pow2(m - 2 * k));
      QuotientAtLeast(x, Pow2(k), Pow2(m - k) - Pow2(m - 2 * k));
    } else {
      Pow2Mono(m - k, k);
      Distribute(Pow2(k), Pow2(m - k), 1);
      QuotientAtLeast(x, Pow2(k), Pow2(m - k) - 1);
    }
  }

  /** One step doubles the ones at the top. */
  lemma Smear(x: nat, m: nat, k: nat)
    requires 1 <= k <= m && TopOnes(x, m, k)
    ensures TopOnes(Or(x, x / Pow2(k)), m, if 2 * k <= m then 2 * k else m)
  {
    hide Pow2, Or;
    HighPart(x, m, k);
    ShiftedOnes(x, m, k);
    var l, y := x - (Pow2(m) - Pow2(m - k)), x / Pow2(k);
    OrLow(Pow2(k) - 1, m - k, l, y);
    Pow2IsOne();
    assert Or(x, y) == Pow2(m) - Pow2(m - k) + Or(l, y);
    var now := if 2 * k <= m then 2 * k else m;
    assert Pow2(m) - Pow2(m - now) <= Or(x, y) by { hide *; }
  }

  lemma Pow2IsOne()
    ensures Pow2(0) == 1
  {
  }

  lemma {:induction false} OrZero(a: nat)
    ensures Or(a, 0) == a
  {
  }

  function Least(a: nat, b: nat): nat { if a <= b then a else b }

  /** x | x >> k, when the top bits of x are ones as far as k reaches. */
  method SmearStep(x: u64, k: nat, ghost m: nat) returns (r: u64)
    requires 1 <= k && 1 <= m <= 64 && TopOnes(x, m, Least(k, m))
    ensures TopOnes(r, m, Least(2 * k, m))
  {
    Pow2Mono(m, 64);
    assert Pow2(64) == TWO64 by { Pow2At32(); PowerStep(32, 0x1_0000_0000, 32, 0x1_0000_0000); }
    if k <= m {
      Smear(x, m, k);
    } else {
      Pow2Mono(m, k);
      assert x / Pow2(k) == 0 by { DivUnique(x, Pow2(k), 0, x); }
      OrZero(x);
    }
    r := Or(x, Shr(x, k));
  }

  /** The least power of two above v, which for the largest words is 2^64 and wraps to 0. */
  method NextPowerOf2(v: u64) returns (r: u64)
    ensures r == Pow2(BitLength(v)) % TWO64
  {
    hide Or, Pow2;
    ghost var m := BitLength(v);
    if v == 0 {
      Pow2IsOne();
      return 1;
    }
    BitLengthBounds(v);
    LengthFits(v);
    assert TopOnes(v, m, Least(1, m)) by { Pow2Next(m - 1); }
    var x := SmearStep(v, 1, m);
    x := SmearStep(x, 2, m);
    x := SmearStep(x, 4, m);
    x := SmearStep(x, 8, m);
    x := SmearStep(x, 16, m);
    x := SmearStep(x, 32, m);
    Pow2IsOne();
    assert x + 1 == Pow2(m);
    r := (x + 1) % TWO64;
  }

  lemma LengthFits(v: u64)
    ensures BitLength(v) <= 64
  {
    BitLengthBounds(v);
    if BitLength(v) > 64 {
      Pow2Mono(64, BitLength(v) - 1);
      Pow2At32();
      PowerStep(32, 0x1_0000_0000, 32, 0x1_0000_0000);
    }
  }
}
