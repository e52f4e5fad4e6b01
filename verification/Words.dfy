/**
 Unsigned 64-bit words and the C operators the modelled code applies to them,
 written as arithmetic: a left shift drops what leaves the word, a right shift is
 a division, and masking with (1 << n) - 1 is a remainder.
 */
module Words {

  function Pow2(n: nat): (r: nat)
    ensures r > 0
  {
    if n == 0 then 1 else 2 * Pow2(n - 1)
  }

  const TWO64: int := 0x1_0000_0000_0000_0000

  type u64 = x: int | 0 <= x < TWO64

  function Shl(x: u64, n: nat): u64 {
    (x * Pow2(n)) % TWO64
  }

  function Shr(x: u64, n: nat): u64 {
    Shrink(x, Pow2(n));
    x / Pow2(n)
  }

  /** x & ((1 << n) - 1) */
  function LowBits(x: u64, n: nat): u64 {
    Shrink(x, Pow2(n));
    x % Pow2(n)
  }

  /** x | 1 */
  function OrOne(x: u64): u64 {
    if x % 2 == 1 then x else x + 1
  }

  /** (x & (1 << n)) != 0 */
  predicate TestBit(x: u64, n: nat) {
    x / Pow2(n) % 2 == 1
  }

  lemma Shrink(x: nat, d: nat)
    requires d > 0
    ensures 0 <= x / d <= x && 0 <= x % d <= x
  {
    DivMod(x, d);
    if x / d > x {
      MulMono(1, d, x / d);
      assert false;
    }
    MulMono(0, d, x / d);
  }

  lemma DivMod(x: int, d: int)
    requires d > 0
    ensures x == d * (x / d) + x % d && 0 <= x % d < d
  {
  }

  lemma MulMono(a: int, b: int, c: int)
    requires a <= b && 0 <= c
    ensures a * c <= b * c && c * a <= c * b
  {
  }

  lemma MulStrict(a: int, b: int, c: int)
    requires a < b && 0 < c
    ensures a * c < b * c && c * a < c * b
  {
  }

  lemma Cancel(a: int, b: int, c: int)
    requires c > 0
    ensures a * c <= b * c <==> a <= b
    ensures a * c == b * c <==> a == b
  {
    if a < b { MulStrict(a, b, c); }
    if b < a { MulStrict(b, a, c); }
  }

  /** The quotient and remainder are the only pair that fits. */
  lemma DivUnique(x: int, d: int, q: int, r: int)
    requires d > 0 && x == d * q + r && 0 <= r < d
    ensures x / d == q && x % d == r
  {
    DivMod(x, d);
    var e := q - x / d;
    assert d * e == x % d - r by {
      assert d * e == d * q - d * (x / d);
    }
    if e >= 1 { MulMono(1, e, d); assert false; }
    if e <= -1 { MulMono(e, -1, d); assert false; }
  }

  lemma {:induction false} Pow2Add(a: nat, b: nat)
    ensures Pow2(a + b) == Pow2(a) * Pow2(b)
  {
    if a == 0 {
    } else {
      Pow2Add(a - 1, b);
      assert a + b - 1 == (a - 1) + b;
      assert Pow2(a) == 2 * Pow2(a - 1);
    }
  }

  lemma {:induction false} Pow2Mono(a: nat, b: nat)
    requires a <= b
    ensures Pow2(a) <= Pow2(b)
    decreases b - a
  {
    if a < b {
      Pow2Mono(a + 1, b);
    }
  }

  lemma Pow2Small()
    ensures Pow2(1) == 2 && Pow2(2) == 4 && Pow2(3) == 8
  {
    Pow2Next(0);
    Pow2Next(1);
    Pow2Next(2);
  }

  lemma Pow2Next(k: nat)
    ensures Pow2(k + 1) == 2 * Pow2(k)
  {
  }

  /** Raising a known power to another. */
  lemma PowerStep(a: nat, x: nat, b: nat, y: nat)
    requires Pow2(a) == x && Pow2(b) == y
    ensures Pow2(a + b) == x * y
  {
    Pow2Add(a, b);
  }

  lemma Pow2At8()
    ensures Pow2(8) == 256
  {
    Pow2Small();
    PowerStep(2, 4, 2, 4);
    PowerStep(4, 16, 4, 16);
  }

  lemma Pow2At32()
    ensures Pow2(32) == 0x1_0000_0000
  {
    Pow2At8();
    PowerStep(8, 0x100, 8, 0x100);
    PowerStep(16, 0x1_0000, 16, 0x1_0000);
  }

  lemma Pow2At52()
    ensures Pow2(52) == 0x10_0000_0000_0000
  {
    Pow2At8();
    Pow2Small();
    PowerStep(8, 0x100, 2, 4);
    PowerStep(10, 0x400, 10, 0x400);
    Pow2At32();
    PowerStep(32, 0x1_0000_0000, 20, 0x10_0000);
  }

  lemma Pow2At63()
    ensures Pow2(63) == 0x8000_0000_0000_0000
  {
    Pow2At8();
    Pow2Small();
    Pow2At52();
    PowerStep(8, 256, 3, 8);
    PowerStep(52, 0x10_0000_0000_0000, 11, 0x800);
  }

  /** Dividing by d and then by e is dividing by d * e. */
  lemma DivDiv(x: nat, d: nat, e: nat)
    requires d > 0 && e > 0
    ensures d * e > 0
    ensures x / d / e == x / (d * e)
    ensures x % (d * e) == 0 <==> x % d == 0 && x / d % e == 0
  {
    MulStrict(0, d, e);
    DivMod(x, d);
    DivMod(x / d, e);
    var q, r := x / d / e, x / d % e;
    calc {
      x;
      d * (e * q + r) + x % d;
      (d * e) * q + (d * r + x % d);
    }
    MulMono(r, e - 1, d);
    assert d * (e - 1) == d * e - d;
    MulMono(0, r, d);
    DivUnique(x, d * e, q, d * r + x % d);
    if r >= 1 { MulMono(1, r, d); }
  }
}
