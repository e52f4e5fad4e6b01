/**
 The integer-only float runtime of the BPF back end: every operation unpacks its
 operands, computes a significand with a sticky bit, and rounds once in RoundPack.
 The ghost arguments of RoundPack carry the exact value the significand stands in for.
 */
module SoftFloat {
  import opened Words
  import opened FloatSpec
  import opened StickyBits

  /** 1ULL << k */
  function Bit(k: nat): (b: u64)
    requires k < 64
    ensures b == Pow2(k)
  {
    Pow2At63();
    Pow2Mono(k, 63);
    Pow2(k)
  }

  /** hi | lo where lo has only bits below 2^k and hi only bits from 2^k up. */
  function Join(hi: u64, lo: u64, k: nat): u64
    requires hi % Pow2(k) == 0 && lo < Pow2(k) && hi + lo < TWO64
  {
    hi + lo
  }

  /** x >>= n with the bits shifted out collected in the last bit. */
  function ShrSticky(x: u64, n: nat): (r: u64)
    ensures r == Jam(x, Pow2(n))
  {
    Shrink(x, Pow2(n));
    if LowBits(x, n) != 0 then OrOne(Shr(x, n)) else Shr(x, n)
  }

  // ---- RoundPack ----

  /** What RoundPack needs of sig as a stand-in for n / d. */
  predicate Faithful(f: Fmt, sig: nat, n: nat, d: nat) {
    n == sig * d || (Agrees(sig, n, d, 2) && Pow2(f.mant + 2) <= sig)
  }

  /** The exponents of binary64 reach this far below those of binary32. */
  const FORMAT_GAP: nat := 1200

  /** A bias that keeps every exponent met on the way nonnegative. */
  function Offset(f: Fmt): nat { 3 * (f.bias + f.mant) + 3 + FORMAT_GAP }

  /**
   With the bit of weight 2^exp at position mant + 3, the significand n / d is the value
   num / den ticks: n / d * 2^(exp + bias - 4) == num / den.
   */
  predicate Denotes(f: Fmt, exp: int, n: nat, d: nat, num: nat, den: nat) {
    && exp + Offset(f) >= f.bias
    && n * Pow2(exp + Offset(f)) * den == num * d * Pow2(Offset(f) + 4 - f.bias)
  }

  /** Moving the point of n / d right by k bits. */
  lemma DenotesShifted(f: Fmt, exp: int, n: nat, d: nat, num: nat, den: nat, k: nat)
    requires Denotes(f, exp, n, d, num, den)
    ensures Denotes(f, exp + k, n, d * Pow2(k), num, den)
  {
    Pow2Add(exp + Offset(f), k);
    ShiftBoth(n, Pow2(exp + Offset(f)), den, num, d, Pow2(Offset(f) + 4 - f.bias), Pow2(k));
  }

  lemma ShiftBoth(n: int, x: int, den: int, num: int, d: int, w: int, p: int)
    requires n * x * den == num * d * w
    ensures n * (x * p) * den == num * (d * p) * w
  {
    assert n * (x * p) * den == (n * x * den) * p;
    assert num * (d * p) * w == (num * d * w) * p;
  }

  lemma DenotesDoubled(f: Fmt, exp: int, n: nat, d: nat, num: nat, den: nat)
    requires Denotes(f, exp, n, d, num, den) && exp + Offset(f) > f.bias
    ensures Denotes(f, exp - 1, 2 * n, d, num, den)
  {
    var x := Pow2(exp - 1 + Offset(f));
    assert Pow2(exp + Offset(f)) == 2 * x;
    assert n * (2 * x) == 2 * n * x;
  }

  /** At exp == 1 - bias + e the value is n / (8 * d) times 2^e ticks. */
  lemma DenotesAtScale(f: Fmt, e: nat, n: nat, d: nat, num: nat, den: nat)
    requires WellFormed(f) && Denotes(f, 1 - f.bias + e, n, d, num, den)
    ensures n * Pow2(e) * den == num * (8 * d)
  {
    var z := Offset(f) + 1 - f.bias;
    Pow2Add(e, z);
    Pow2Add(3, z);
    Pow2Small();
    CancelScale(n, Pow2(e), den, num, d, Pow2(z));
  }

  lemma CancelScale(n: nat, x: nat, den: nat, num: nat, d: nat, w: nat)
    requires w > 0 && n * (x * w) * den == num * d * (8 * w)
    ensures n * x * den == num * (8 * d)
  {
    assert n * (x * w) * den == (n * x * den) * w;
    assert num * d * (8 * w) == (num * (8 * d)) * w;
    Cancel(n * x * den, num * (8 * d), w);
  }

  lemma ZeroRounds(f: Fmt, exp: int, n: nat, d: nat, num: nat, den: nat)
    requires WellFormed(f) && d > 0 && den > 0
    requires Faithful(f, 0, n, d) && Denotes(f, exp, n, d, num, den)
    ensures Nearest(f, num, den, 0)
  {
    assert n == 0;
    var w := Pow2(Offset(f) + 4 - f.bias);
    assert num * d * w == 0;
    MulStrict(0, d, w);
    assert num * (d * w) == 0;
    if num > 0 { MulStrict(0, num, d * w); }
    TicksAt(f, 0, 0);
    TicksStep(f, 0);
    MulStrict(0, Ticks(f, 1), den);
    BetweenIsNearest(f, 0, den, 0);
  }

  /** A significand shifted right by k >= 1 with its sticky bit still stands for n / d. */
  lemma JamFaithful(f: Fmt, sig: nat, n: nat, d: nat, k: nat)
    requires d > 0 && k > 0
    requires n == sig * d || Agrees(sig, n, d, 4)
    ensures Agrees(Jam(sig, Pow2(k)), n, d * Pow2(k), 2)
  {
    var p := Pow2(k);
    if n == sig * d {
      AgreesWhenEqual(sig, n, d, p * 2);
    } else {
      assert p == 2 * Pow2(k - 1);
      AgreesCoarser(sig, n, d, 4, Pow2(k - 1));
    }
    AgreesJam(sig, n, d, p);
  }

  lemma AgreesFourth(f: Fmt, sig: nat, n: nat, d: nat)
    requires d > 0 && Faithful(f, sig, n, d)
    ensures Agrees(sig, n, d, 4)
  {
    if n == sig * d {
      AgreesWhenEqual(sig, n, d, 4);
    } else {
      AgreesCoarser(sig, n, d, 2, 2);
    }
  }

  lemma JamSize(sig: nat, k: nat, bound: nat)
    requires k > 0 && bound % 2 == 0 && sig < bound * Pow2(k)
    ensures Jam(sig, Pow2(k)) < bound
  {
    var p := Pow2(k);
    DivMod(sig, p);
    if sig / p >= bound { MulMono(bound, sig / p, p); }
  }

  /** The magnitude for significand q at exponent e above the least, infinity when too large. */
  function Clamped(f: Fmt, e: nat, q: nat): nat
    requires WellFormed(f)
  {
    var m := e * Pow2(f.mant) + q;
    if m < InfMag(f) then m else InfMag(f)
  }

  // ---- the rounding step ----

  lemma TicksBelow(f: Fmt, e: nat, q: nat, n: nat, d: nat)
    requires 8 <= Pow2(f.mant) && d > 0
    requires 0 < q <= 2 * Pow2(f.mant) && (e > 0 ==> Pow2(f.mant) < q)
    requires NearestEighth(q, n, 4 * d)
    ensures var m, x := e * Pow2(f.mant) + q, Pow2(e);
            && (Ticks(f, m - 1) + Ticks(f, m)) * (8 * d) <= 2 * (n * x)
            && (q % 2 == 1 ==> (Ticks(f, m - 1) + Ticks(f, m)) * (8 * d) < 2 * (n * x))
  {
    var p, x := Pow2(f.mant), Pow2(e);
    TicksAt(f, e, q);
    assert e * p + q - 1 == e * p + (q - 1);
    TicksAt(f, e, q - 1);
    AddSteps(q - 1, x);
    SumLeft(2 * q - 1, x, d, n);
  }

  lemma AddSteps(q: int, x: int)
    ensures q * x + (q + 1) * x == (2 * q + 1) * x
  {
  }

  lemma SumLeft(k: int, x: nat, d: nat, n: nat)
    requires k * (4 * d) <= n && x > 0
    ensures k * x * (8 * d) <= 2 * (n * x)
    ensures k * (4 * d) < n ==> k * x * (8 * d) < 2 * (n * x)
  {
    assert k * x * (8 * d) == 2 * (k * (4 * d) * x);
    MulMono(k * (4 * d), n, x);
    if k * (4 * d) < n { MulStrict(k * (4 * d), n, x); }
  }

  /** At the least significand of a binade the value below is half a unit away. */
  lemma TicksBelowBinade(f: Fmt, e: nat, n: nat, d: nat)
    requires 8 <= Pow2(f.mant) && d > 0 && e > 0 && 8 * Pow2(f.mant) * d <= n
    ensures var m := e * Pow2(f.mant) + Pow2(f.mant);
            (Ticks(f, m - 1) + Ticks(f, m)) * (8 * d) <= 2 * (n * Pow2(e))
  {
    var p, y := Pow2(f.mant), Pow2(e - 1);
    TicksAt(f, e, p);
    assert e * p + p - 1 == (e - 1) * p + (2 * p - 1) by { Regroup(p, e); }
    TicksAt(f, e - 1, 2 * p - 1);
    BinadeArith(p, y, d, n);
  }

  lemma BinadeArith(p: nat, y: nat, d: nat, n: nat)
    requires 8 * p * d <= n
    ensures ((2 * p - 1) * y + p * (2 * y)) * (8 * d) <= 2 * (n * (2 * y))
  {
    MulMono((2 * p - 1) * y + p * (2 * y), 4 * (p * y), 8 * d) by {
      assert (2 * p - 1) * y == 2 * (p * y) - y;
    }
    MulMono(8 * p * d, n, y);
    assert 4 * (p * y) * (8 * d) == 4 * (8 * p * d * y);
  }

  lemma TicksAbove(f: Fmt, e: nat, q: nat, n: nat, d: nat)
    requires 8 <= Pow2(f.mant) && d > 0
    requires q <= 2 * Pow2(f.mant) && (e > 0 ==> Pow2(f.mant) <= q)
    requires NearestEighth(q, n, 4 * d)
    ensures var m, x := e * Pow2(f.mant) + q, Pow2(e);
            && 2 * (n * x) <= (Ticks(f, m) + Ticks(f, m + 1)) * (8 * d)
            && (q % 2 == 1 ==> 2 * (n * x) < (Ticks(f, m) + Ticks(f, m + 1)) * (8 * d))
  {
    var m, x := e * Pow2(f.mant) + q, Pow2(e);
    TicksAt(f, e, q);
    TicksNext(f, e, q);
    AddSteps(q, x);
    SumRight(2 * q + 1, x, d, n, Ticks(f, m) + Ticks(f, m + 1));
  }

  lemma TicksNext(f: Fmt, e: nat, q: nat)
    requires 8 <= Pow2(f.mant)
    requires q <= 2 * Pow2(f.mant) && (e > 0 ==> Pow2(f.mant) <= q)
    ensures Ticks(f, e * Pow2(f.mant) + q + 1) >= (q + 1) * Pow2(e)
  {
    var p, x := Pow2(f.mant), Pow2(e);
    if q < 2 * p {
      assert e * p + q + 1 == e * p + (q + 1);
      TicksAt(f, e, q + 1);
    } else {
      assert e * p + q + 1 == (e + 1) * p + (p + 1);
      TicksAt(f, e + 1, p + 1);
      Double(p + 1, x);
      MulMono(2 * p + 1, 2 * p + 2, x);
    }
  }

  lemma SumRight(k: nat, x: nat, d: nat, n: nat, sum: nat)
    requires n <= k * (4 * d) && x > 0 && k * x <= sum
    ensures 2 * (n * x) <= sum * (8 * d)
    ensures n < k * (4 * d) ==> 2 * (n * x) < sum * (8 * d)
  {
    MulMono(k * x, sum, 8 * d);
    assert k * x * (8 * d) == 2 * (k * (4 * d) * x);
    MulMono(n, k * (4 * d), x);
    if n < k * (4 * d) { MulStrict(n, k * (4 * d), x); }
  }

  /** Rounding the last three bits off sig, at exponent e above the least, rounds num / den. */
  lemma RoundedAt(f: Fmt, e: nat, sig: nat, n: nat, d: nat, num: nat, den: nat)
    requires WellFormed(f) && d > 0 && den > 0
    requires Agrees(sig, n, d, 4) && sig < Pow2(f.mant + 4) && (e > 0 ==> Pow2(f.mant + 3) <= sig)
    requires n * Pow2(e) * den == num * (8 * d)
    ensures Nearest(f, num, den, Clamped(f, e, RoundEighth(sig)))
  {
    var m := e * Pow2(f.mant) + RoundEighth(sig);
    BetweenAt(f, e, sig, n, d);
    BetweenScale(f, n * Pow2(e), 8 * d, num, den, m);
    if m <= InfMag(f) {
      BetweenIsNearest(f, num, den, m);
    } else {
      Beyond(f, num, den, m);
    }
  }

  lemma BetweenAt(f: Fmt, e: nat, sig: nat, n: nat, d: nat)
    requires WellFormed(f) && d > 0
    requires Agrees(sig, n, d, 4) && sig < Pow2(f.mant + 4) && (e > 0 ==> Pow2(f.mant + 3) <= sig)
    ensures Between(f, n * Pow2(e), 8 * d, e * Pow2(f.mant) + RoundEighth(sig))
  {
    SigSize(f, e, sig, n, d);
    RoundEighthNearest(sig, n, d);
    BetweenEighth(f, e, RoundEighth(sig), n, d);
  }

  lemma BetweenEighth(f: Fmt, e: nat, q: nat, n: nat, d: nat)
    requires 8 <= Pow2(f.mant) && Pow2(f.mant) % 8 == 0 && d > 0
    requires q <= 2 * Pow2(f.mant) && NearestEighth(q, n, 4 * d)
    requires e > 0 ==> Pow2(f.mant) <= q && 8 * Pow2(f.mant) * d <= n
    ensures Between(f, n * Pow2(e), 8 * d, e * Pow2(f.mant) + q)
  {
    TicksAbove(f, e, q, n, d);
    if e > 0 && q == Pow2(f.mant) {
      TicksBelowBinade(f, e, n, d);
    } else if q > 0 {
      TicksBelow(f, e, q, n, d);
    }
    SameParity(e, Pow2(f.mant), q);
    MulMono(0, e, Pow2(f.mant));
  }

  lemma SameParity(e: nat, p: nat, q: nat)
    requires p % 2 == 0
    ensures (e * p + q) % 2 == q % 2
  {
    assert p == 2 * (p / 2);
    assert e * (2 * (p / 2)) == 2 * (e * (p / 2));
  }

  lemma SigSize(f: Fmt, e: nat, sig: nat, n: nat, d: nat)
    requires Agrees(sig, n, d, 4) && sig < Pow2(f.mant + 4) && (e > 0 ==> Pow2(f.mant + 3) <= sig)
    ensures RoundEighth(sig) <= 2 * Pow2(f.mant)
    ensures e > 0 ==> Pow2(f.mant) <= RoundEighth(sig) && 8 * Pow2(f.mant) * d <= n
  {
    HiddenPowers(f);
    if e > 0 {
      MulMono(2 * Pow2(f.mant), sig / 4, 4 * d);
      assert 2 * Pow2(f.mant) * (4 * d) == 8 * Pow2(f.mant) * d;
    }
  }

  lemma Beyond(f: Fmt, num: nat, den: nat, m: nat)
    requires WellFormed(f) && den > 0 && m > InfMag(f) && Between(f, num, den, m)
    ensures Nearest(f, num, den, InfMag(f))
  {
    var top := InfMag(f);
    TicksOrder(f, top - 1, m - 1);
    TicksOrder(f, top, m);
    MulMono(Ticks(f, top - 1) + Ticks(f, top), Ticks(f, m - 1) + Ticks(f, m), den);
  }

  // ---- one step of each kind, on the significand and the value it stands for ----

  predicate Standing(f: Fmt, exp: int, sig: nat, n: nat, d: nat, num: nat, den: nat) {
    d > 0 && Agrees(sig, n, d, 4) && Denotes(f, exp, n, d, num, den)
  }

  lemma RightStep(f: Fmt, exp: int, sig: nat, n: nat, d: nat, num: nat, den: nat, sh: nat)
    requires sh > 0 && Standing(f, exp, sig, n, d, num, den)
    ensures Standing(f, exp + sh, Jam(sig, Pow2(sh)), n, d * Pow2(sh), num, den)
    ensures Agrees(Jam(sig, Pow2(sh)), n, d * Pow2(sh), 2)
  {
    JamFaithful(f, sig, n, d, sh);
    MulStrict(0, d, Pow2(sh));
    AgreesCoarser(Jam(sig, Pow2(sh)), n, d * Pow2(sh), 2, 2);
    DenotesShifted(f, exp, n, d, num, den, sh);
  }

  lemma LeftStep(f: Fmt, exp: int, sig: nat, n: nat, d: nat, num: nat, den: nat)
    requires Standing(f, exp, sig, n, d, num, den)
    requires exp > 1 - f.bias && Faithful(f, sig, n, d)
    ensures Standing(f, exp - 1, 2 * sig, 2 * n, d, num, den)
    ensures Faithful(f, 2 * sig, 2 * n, d) || Pow2(f.mant + 3) <= 2 * sig
  {
    DenotesDoubled(f, exp, n, d, num, den);
    if n == sig * d {
      AgreesWhenEqual(2 * sig, 2 * n, d, 4);
    } else {
      AgreesDouble(sig, n, d, 2);
    }
  }

  /** A shift by 63 or more leaves only the sticky bit. */
  lemma JamAway(sig: nat, sh: nat)
    requires 63 <= sh && sig < 0x8000_0000_0000_0000
    ensures Jam(sig, Pow2(sh)) == if sig != 0 then 1 else 0
  {
    Pow2At63();
    Pow2Mono(63, sh);
    DivUnique(sig, Pow2(sh), 0, sig);
  }

  lemma DoubleFits(x: u64)
    requires 2 * x < TWO64
    ensures Shl(x, 1) == 2 * x
  {
    Pow2Small();
  }

  /** The source's test for the carry. */
  predicate Carries(sig: u64) {
    TestBit(sig, 2) && (LowBits(sig, 2) != 0 || TestBit(sig, 3))
  }

  lemma RoundCode(sig: u64)
    requires sig + 8 < TWO64
    ensures Shr(if Carries(sig) then sig + 8 else sig, 3) == RoundEighth(sig)
  {
    assert Pow2(2) == 4 && Pow2(3) == 8 by { assert Pow2(1) == 2; }
  }

  /** Where the rounded significand q at exponent e lands among the magnitudes. */
  lemma Landing(f: Fmt, e: nat, q: nat)
    requires WellFormed(f) && q <= 2 * Pow2(f.mant) && (e > 0 ==> Pow2(f.mant) <= q)
    ensures var p, m := Pow2(f.mant), e * Pow2(f.mant) + q;
            && (q < p ==> m == q && m < InfMag(f) && q / p % 2 == 0)
            && (p <= q < 2 * p ==> m == (e + 1) * p + (q - p) && q / p % 2 == 1 && q % p == q - p)
            && (p <= q < 2 * p ==> (m >= InfMag(f) <==> e + 1 >= f.emax))
            && (q == 2 * p ==> m == (e + 2) * p)
            && (q == 2 * p ==> (m >= InfMag(f) <==> e + 2 >= f.emax))
  {
    var p := Pow2(f.mant);
    if q < p {
      DivUnique(q, p, 0, q);
      MulMono(1, f.emax, p);
    } else if q < 2 * p {
      DivUnique(q, p, 1, q - p);
      assert (e + 1) * p == e * p + p;
      if e + 1 >= f.emax { MulMono(f.emax, e + 1, p); } else { MulMono(e + 2, f.emax, p); assert (e + 2) * p == (e + 1) * p + p; }
    } else {
      assert (e + 2) * p == e * p + 2 * p;
      if e + 2 >= f.emax { MulMono(f.emax, e + 2, p); } else { MulStrict(e + 2, f.emax, p); }
    }
  }

  /** Placing an exponent above the fraction loses nothing. */
  lemma FieldsFit(f: Fmt, biased: nat, frac: nat)
    requires WellFormed(f) && biased < f.emax && frac < Pow2(f.mant)
    ensures biased < TWO64 && Shl(biased, f.mant) == biased * Pow2(f.mant)
    ensures (biased * Pow2(f.mant)) % Pow2(f.mant) == 0
    ensures biased * Pow2(f.mant) + frac < InfMag(f)
  {
    var p := Pow2(f.mant);
    MulMono(biased + 1, f.emax, p);
    assert (biased + 1) * p == biased * p + p;
    DivUnique(biased * p, p, biased, 0);
  }

  /** The left shifts of RoundPack: until the hidden bit is in place or exp is least. */
  method Normalize(f: Fmt, exp0: int, sig0: u64,
                   ghost n0: nat, ghost d: nat, ghost num: nat, ghost den: nat)
    returns (exp: int, sig: u64, ghost n: nat)
    requires WellFormed(f) && 0 < sig0 < Pow2(f.mant + 4) && Standing(f, exp0, sig0, n0, d, num, den)
    requires Faithful(f, sig0, n0, d) || Pow2(f.mant + 3) <= sig0
    ensures 0 < sig < Pow2(f.mant + 4) && Standing(f, exp, sig, n, d, num, den)
    ensures exp > 1 - f.bias ==> Pow2(f.mant + 3) <= sig
  {
    exp, sig, n := exp0, sig0, n0;
    HiddenPowers(f);
    while sig < Bit(f.mant + 3) && exp > 1 - f.bias
      invariant 0 < sig < Pow2(f.mant + 4) && Standing(f, exp, sig, n, d, num, den)
      invariant Faithful(f, sig, n, d) || Pow2(f.mant + 3) <= sig
      decreases exp + f.bias
    {
      LeftStep(f, exp, sig, n, d, num, den);
      DoubleFits(sig);
      sig, exp, n := Shl(sig, 1), exp - 1, 2 * n;
    }
  }

  method RoundPack(f: Fmt, sign: bool, exp0: int, sig0: u64,
                   ghost n0: nat, ghost d0: nat, ghost num: nat, ghost den: nat)
    returns (bits: nat)
    requires WellFormed(f) && d0 > 0 && den > 0
    requires Faithful(f, sig0, n0, d0) && Denotes(f, exp0, n0, d0, num, den)
    ensures Rounded(f, sign, num, den, bits)
  {
    var exp, sig := exp0, sig0;
    ghost var n: nat, d: nat := n0, d0;
    if sig == 0 {
      ZeroRounds(f, exp, n, d, num, den);
      return WithSign(f, sign, 0);
    }
    AgreesFourth(f, sig, n, d);
    while sig >= Bit(f.mant + 4)
      invariant sig > 0 && Standing(f, exp, sig, n, d, num, den)
      invariant Faithful(f, sig, n, d) || Pow2(f.mant + 3) <= sig
      decreases sig
    {
      RightStep(f, exp, sig, n, d, num, den, 1);
      HalfSize(f, sig);
      sig, exp, d := ShrSticky(sig, 1), exp + 1, d * 2;
    }
    exp, sig, n := Normalize(f, exp, sig, n, d, num, den);
    exp, sig, d := Denormalize(f, exp, sig, n, d, num, den);
    ghost var e := exp - 1 + f.bias;
    RoundedWhereItStands(f, e, sig, n, d, num, den);
    SignedRounded(f, sign, num, den, Clamped(f, e, RoundEighth(sig)));
    bits := RoundAndPack(f, sign, exp, sig);
  }

  lemma HalfSize(f: Fmt, sig: nat)
    requires sig >= Pow2(f.mant + 4)
    ensures Pow2(1) == 2 && Pow2(f.mant + 3) <= Jam(sig, 2) < sig
  {
  }

  /** The right shift of RoundPack that puts a subnormal result in place. */
  method Denormalize(f: Fmt, exp0: int, sig0: u64,
                     ghost n: nat, ghost d0: nat, ghost num: nat, ghost den: nat)
    returns (exp: int, sig: u64, ghost d: nat)
    requires WellFormed(f) && sig0 < Pow2(f.mant + 4) && Standing(f, exp0, sig0, n, d0, num, den)
    requires exp0 > 1 - f.bias ==> Pow2(f.mant + 3) <= sig0
    ensures exp >= 1 - f.bias && sig < Pow2(f.mant + 4) && Standing(f, exp, sig, n, d, num, den)
    ensures exp > 1 - f.bias ==> Pow2(f.mant + 3) <= sig
  {
    exp, sig, d := exp0, sig0, d0;
    if exp < 1 - f.bias {
      var sh := 1 - f.bias - exp;
      RightStep(f, exp, sig, n, d, num, den, sh);
      JamSize(sig, sh, Pow2(f.mant + 4)) by { MulMono(1, Pow2(sh), Pow2(f.mant + 4)); }
      HiddenPowers(f);
      if sh >= 63 {
        JamAway(sig, sh);
        sig := if sig != 0 then 1 else 0;
      } else {
        sig := ShrSticky(sig, sh);
      }
      d := d * Pow2(sh);
      exp := 1 - f.bias;
    }
  }

  /** The end of RoundPack: one rounding, then the fields. */
  method RoundAndPack(f: Fmt, sign: bool, exp: int, sig0: u64) returns (bits: nat)
    requires WellFormed(f) && exp >= 1 - f.bias && sig0 + 8 < TWO64
    requires RoundEighth(sig0) <= 2 * Pow2(f.mant)
    requires exp > 1 - f.bias ==> Pow2(f.mant) <= RoundEighth(sig0)
    ensures bits == WithSign(f, sign, Clamped(f, exp - 1 + f.bias, RoundEighth(sig0)))
  {
    var sig := sig0;
    RoundCode(sig);
    if Carries(sig) {
      sig := sig + 8;
    }
    sig := Shr(sig, 3);
    bits := Pack(f, sign, exp, sig);
  }

  lemma RoundedWhereItStands(f: Fmt, e: nat, sig: nat, n: nat, d: nat, num: nat, den: nat)
    requires WellFormed(f) && den > 0 && Standing(f, 1 - f.bias + e, sig, n, d, num, den)
    requires sig < Pow2(f.mant + 4) && (e > 0 ==> Pow2(f.mant + 3) <= sig)
    ensures Nearest(f, num, den, Clamped(f, e, RoundEighth(sig)))
    ensures RoundEighth(sig) <= 2 * Pow2(f.mant) && (e > 0 ==> Pow2(f.mant) <= RoundEighth(sig))
    ensures sig + 8 < TWO64
  {
    DenotesAtScale(f, e, n, d, num, den);
    RoundedAt(f, e, sig, n, d, num, den);
    SigSize(f, e, sig, n, d);
    HiddenPowers(f);
  }

  lemma SignedRounded(f: Fmt, sign: bool, num: nat, den: nat, m: nat)
    requires WellFormed(f) && m <= InfMag(f) && Nearest(f, num, den, m)
    ensures Rounded(f, sign, num, den, WithSign(f, sign, m))
  {
  }

  /** The fields of the rounded significand sig at exponent exp, infinity when it is too large. */
  method Pack(f: Fmt, sign: bool, exp0: int, sig0: u64) returns (bits: nat)
    requires WellFormed(f) && exp0 >= 1 - f.bias
    requires sig0 <= 2 * Pow2(f.mant) && (exp0 > 1 - f.bias ==> Pow2(f.mant) <= sig0)
    ensures bits == WithSign(f, sign, Clamped(f, exp0 - 1 + f.bias, sig0))
  {
    var exp, sig := exp0, sig0;
    Landing(f, exp - 1 + f.bias, sig);
    if sig >= Bit(f.mant + 1) {
      assert Shr(sig, 1) == Pow2(f.mant) by { assert Pow2(1) == 2; }
      sig := Shr(sig, 1);
      exp := exp + 1;
      Landing(f, exp - 1 + f.bias, sig);
    }
    var biased := exp + f.bias;
    if biased >= f.emax {
      return WithSign(f, sign, InfMag(f));
    }
    if !TestBit(sig, f.mant) {
      return WithSign(f, sign, sig);
    }
    var frac := LowBits(sig, f.mant);
    FieldsFit(f, biased, frac);
    bits := WithSign(f, sign, Join(Shl(biased, f.mant), frac, f.mant));
  }
}
