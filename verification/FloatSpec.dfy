/**
 What a binary32 or binary64 bit pattern stands for, and what it means for a bit
 pattern to be an exact value rounded once (IEEE 754-2019, sections 3.4 and 4.3.1).

 Every finite value of a format is an integer number of ticks, a tick being the
 smallest subnormal 2^(1 - bias - mant), so an exact result is a fraction n / d of
 ticks and rounding is stated over integers.
 */
module FloatSpec {
  import opened Words

  datatype Fmt = Fmt(mant: nat, bias: nat, emax: nat, is64: bool)

  function Fmt32(): Fmt { Fmt(23, 127, 255, false) }

  function Fmt64(): Fmt { Fmt(52, 1023, 2047, true) }

  /** The weight of the sign bit. */
  function SignBit(f: Fmt): u64 {
    if f.is64 then 0x8000_0000_0000_0000 else 0x8000_0000
  }

  /** The fields fit together: sign, exponent and fraction fill 32 or 64 bits. */
  predicate WellFormed(f: Fmt) {
    && 8 <= f.mant <= 52
    && f.emax == 2 * f.bias + 1
    && f.emax == (if f.is64 then 2047 else 255)
    && Pow2(f.mant) == (if f.is64 then 0x10_0000_0000_0000 else 0x80_0000)
  }

  lemma FormatsWellFormed()
    ensures WellFormed(Fmt32()) && WellFormed(Fmt64())
  {
    Pow2At52();
    Pow2At8();
    Pow2Small();
    PowerStep(8, 0x100, 8, 0x100);
    PowerStep(8, 0x100, 16, 0x1_0000);
    PowerStep(23, Pow2(23), 1, 2);
  }

  /** The powers around the hidden bit. */
  lemma HiddenPowers(f: Fmt)
    ensures Pow2(f.mant + 1) == 2 * Pow2(f.mant) && Pow2(f.mant + 2) == 4 * Pow2(f.mant)
    ensures Pow2(f.mant + 3) == 8 * Pow2(f.mant) && Pow2(f.mant + 4) == 16 * Pow2(f.mant)
  {
    Pow2Next(f.mant);
    Pow2Next(f.mant + 1);
    Pow2Next(f.mant + 2);
    Pow2Next(f.mant + 3);
  }

  /** A bit pattern of the format: 32 or 64 bits. */
  predicate IsBits(f: Fmt, bits: int) { 0 <= bits < 2 * SignBit(f) }

  predicate Negative(f: Fmt, bits: nat) { bits >= SignBit(f) }

  /** The bits below the sign. */
  function Mag(f: Fmt, bits: nat): (m: nat)
    requires IsBits(f, bits)
    ensures m < SignBit(f)
  {
    if Negative(f, bits) then bits - SignBit(f) else bits
  }

  function WithSign(f: Fmt, neg: bool, m: nat): nat {
    if neg then SignBit(f) + m else m
  }

  /** The magnitude of infinity: exponent field emax, fraction zero. */
  function InfMag(f: Fmt): (m: nat)
    requires WellFormed(f)
    ensures m == f.emax * Pow2(f.mant) && 0 < m < SignBit(f)
  {
    SignBit(f) - Pow2(f.mant)
  }

  predicate IsNan(f: Fmt, bits: nat)
    requires WellFormed(f)
  {
    IsBits(f, bits) && Mag(f, bits) > InfMag(f)
  }

  predicate IsInf(f: Fmt, bits: nat)
    requires WellFormed(f)
  {
    IsBits(f, bits) && Mag(f, bits) == InfMag(f)
  }

  predicate IsFinite(f: Fmt, bits: nat)
    requires WellFormed(f)
  {
    IsBits(f, bits) && Mag(f, bits) < InfMag(f)
  }

  predicate IsZero(f: Fmt, bits: nat) { IsBits(f, bits) && Mag(f, bits) == 0 }

  /**
   The value in ticks of the magnitude bits m: below the second binade the bits are the
   value, and one binade further up the value doubles (TicksOfFields gives the closed form).
   At m = InfMag(f) this is the number the format would hold there if its exponent went
   one further.
   */
  function Ticks(f: Fmt, m: nat): nat {
    if m < 2 * Pow2(f.mant) then m else 2 * Ticks(f, m - Pow2(f.mant))
  }

  /** The value in ticks of a finite bit pattern. */
  function Value(f: Fmt, bits: nat): int
    requires IsBits(f, bits)
  {
    var t: int := Ticks(f, Mag(f, bits));
    if Negative(f, bits) then -t else t
  }

  /** The number of ticks in 1 is 2^OneTicks(f). */
  function OneTicks(f: Fmt): nat
    requires WellFormed(f)
  {
    f.bias + f.mant - 1
  }

  function Abs(x: int): nat { if x < 0 then -x else x }

  /** |Ticks(f, m) - n / d|, times d */
  function Distance(f: Fmt, n: nat, d: nat, m: nat): nat {
    Abs(Ticks(f, m) * d - n)
  }

  /** n / d is at or above the point from which rounding to nearest overflows. */
  predicate Overflows(f: Fmt, n: nat, d: nat)
    requires WellFormed(f)
  {
    (Ticks(f, InfMag(f) - 1) + Ticks(f, InfMag(f))) * d <= 2 * n
  }

  /**
   The magnitude m is n / d ticks rounded to nearest, ties to even: infinity exactly
   when n / d overflows, and otherwise no finite magnitude is closer, and none other
   than m is as close unless m's last bit is zero.
   */
  ghost predicate Nearest(f: Fmt, n: nat, d: nat, m: nat)
    requires WellFormed(f)
  {
    if m >= InfMag(f) then m == InfMag(f) && Overflows(f, n, d)
    else
      && !Overflows(f, n, d)
      && forall s: nat | s < InfMag(f) ::
           && Distance(f, n, d, m) <= Distance(f, n, d, s)
           && (s != m && Distance(f, n, d, m) == Distance(f, n, d, s) ==> m % 2 == 0)
  }

  /** bits is the signed exact value +-n / d, rounded once. */
  ghost predicate Rounded(f: Fmt, neg: bool, n: nat, d: nat, bits: nat)
    requires WellFormed(f)
  {
    && IsBits(f, bits)
    && Negative(f, bits) == neg
    && Nearest(f, n, d, Mag(f, bits))
  }

  // ---- the magnitudes are the values in order ----

  /** Ticks at e * 2^mant + t, for a significand t that may touch the next binade. */
  lemma {:induction false} TicksAt(f: Fmt, e: nat, t: nat)
    requires t <= 2 * Pow2(f.mant)
    requires e == 0 || Pow2(f.mant) <= t
    ensures Ticks(f, e * Pow2(f.mant) + t) == t * Pow2(e)
  {
    if e == 0 {
      BelowTwo(f, t);
    } else {
      TicksAt(f, e - 1, t);
      OneUp(f, e, t);
      Twice(t, Pow2(e - 1));
    }
  }

  lemma BelowTwo(f: Fmt, t: nat)
    requires t <= 2 * Pow2(f.mant)
    ensures Ticks(f, t) == t
  {
  }

  lemma Twice(t: int, x: int)
    ensures t * (2 * x) == 2 * (t * x)
  {
  }

  lemma OneUp(f: Fmt, e: nat, t: nat)
    requires e > 0 && Pow2(f.mant) <= t
    ensures Ticks(f, e * Pow2(f.mant) + t) == 2 * Ticks(f, (e - 1) * Pow2(f.mant) + t)
  {
    Regroup(Pow2(f.mant), e);
    MulMono(0, e - 1, Pow2(f.mant));
  }

  /**
   The closed form, for exponent field e and fraction t: subnormals are their fraction,
   other values have a hidden bit (IEEE 754-2019, section 3.4).
   */
  lemma TicksOfFields(f: Fmt, e: nat, t: nat)
    requires t < Pow2(f.mant)
    ensures Ticks(f, Pow2(f.mant) * e + t) == if e == 0 then t else (Pow2(f.mant) + t) * Pow2(e - 1)
  {
    if e == 0 {
      TicksAt(f, 0, t);
    } else {
      Regroup(Pow2(f.mant), e);
      TicksAt(f, e - 1, Pow2(f.mant) + t);
    }
  }

  lemma Regroup(p: int, q: int)
    ensures p * q == (q - 1) * p + p
  {
  }

  lemma Double(p: int, x: int)
    ensures p * (2 * x) == (2 * p) * x
  {
  }

  /** Every magnitude has the form TicksAt speaks of, with t below the next binade. */
  lemma Split(f: Fmt, m: nat) returns (e: nat, t: nat)
    ensures m == e * Pow2(f.mant) + t && t < 2 * Pow2(f.mant)
    ensures e == 0 || Pow2(f.mant) <= t
  {
    e, t := SplitBy(Pow2(f.mant), m);
  }

  lemma SplitBy(p: nat, m: nat) returns (e: nat, t: nat)
    requires p > 0
    ensures m == e * p + t && t < 2 * p
    ensures e == 0 || p <= t
  {
    var q, r := m / p, m % p;
    DivMod(m, p);
    if q == 0 {
      e, t := 0, r;
    } else {
      e, t := q - 1, p + r;
      Regroup(p, q);
    }
  }

  lemma TicksStep(f: Fmt, m: nat)
    ensures Ticks(f, m) < Ticks(f, m + 1)
  {
    var e, t := Split(f, m);
    TicksAt(f, e, t);
    TicksAt(f, e, t + 1);
    MulStrict(t, t + 1, Pow2(e));
  }

  lemma {:induction false} TicksOrder(f: Fmt, a: nat, b: nat)
    requires a <= b
    ensures Ticks(f, a) <= Ticks(f, b)
    ensures a < b ==> Ticks(f, a) < Ticks(f, b)
    decreases b - a
  {
    if a < b {
      TicksStep(f, a);
      TicksOrder(f, a + 1, b);
    }
  }

  // ---- rounding, locally ----

  /** n / d lies between the midpoints on either side of m, and on one only if m is even. */
  predicate Between(f: Fmt, n: nat, d: nat, m: nat) {
    && (m > 0 ==> (Ticks(f, m - 1) + Ticks(f, m)) * d <= 2 * n)
    && (m > 0 && m % 2 == 1 ==> (Ticks(f, m - 1) + Ticks(f, m)) * d < 2 * n)
    && 2 * n <= (Ticks(f, m) + Ticks(f, m + 1)) * d
    && (m % 2 == 1 ==> 2 * n < (Ticks(f, m) + Ticks(f, m + 1)) * d)
  }

  lemma BetweenIsNearest(f: Fmt, n: nat, d: nat, m: nat)
    requires WellFormed(f) && d > 0 && m <= InfMag(f) && Between(f, n, d, m)
    ensures Nearest(f, n, d, m)
  {
    if m < InfMag(f) {
      BetweenBelowTop(f, n, d, m);
      forall s: nat | s < InfMag(f)
        ensures Distance(f, n, d, m) <= Distance(f, n, d, s)
        ensures s != m && Distance(f, n, d, m) == Distance(f, n, d, s) ==> m % 2 == 0
      {
        Closer(f, n, d, m, s);
      }
    }
  }

  lemma BetweenBelowTop(f: Fmt, n: nat, d: nat, m: nat)
    requires WellFormed(f) && d > 0 && m < InfMag(f) && Between(f, n, d, m)
    ensures !Overflows(f, n, d)
  {
    var top := InfMag(f);
    TicksOrder(f, m, top - 1);
    TicksOrder(f, m + 1, top);
    if m + 1 < top {
      MulStrict(Ticks(f, m) + Ticks(f, m + 1), Ticks(f, top - 1) + Ticks(f, top), d);
    }
  }

  lemma Closer(f: Fmt, n: nat, d: nat, m: nat, s: nat)
    requires d > 0 && Between(f, n, d, m)
    ensures Distance(f, n, d, m) <= Distance(f, n, d, s)
    ensures s != m && Distance(f, n, d, m) == Distance(f, n, d, s) ==> m % 2 == 0
  {
    if s < m {
      TicksOrder(f, s, m - 1);
      TicksOrder(f, m - 1, m);
      CloserBelow(Ticks(f, s), Ticks(f, m - 1), Ticks(f, m), n, d);
    } else if m < s {
      TicksOrder(f, m + 1, s);
      TicksOrder(f, m, m + 1);
      CloserAbove(Ticks(f, m), Ticks(f, m + 1), Ticks(f, s), n, d);
    }
  }

  lemma CloserBelow(ts: nat, t1: nat, tm: nat, n: nat, d: nat)
    requires d > 0 && ts <= t1 < tm && (t1 + tm) * d <= 2 * n
    ensures Abs(tm * d - n) <= Abs(ts * d - n)
    ensures (t1 + tm) * d < 2 * n ==> Abs(tm * d - n) < Abs(ts * d - n)
  {
    MulMono(ts, t1, d);
    MulStrict(t1, tm, d);
    assert (t1 + tm) * d == t1 * d + tm * d;
  }

  lemma CloserAbove(tm: nat, t1: nat, ts: nat, n: nat, d: nat)
    requires d > 0 && tm < t1 <= ts && 2 * n <= (tm + t1) * d
    ensures Abs(tm * d - n) <= Abs(ts * d - n)
    ensures 2 * n < (tm + t1) * d ==> Abs(tm * d - n) < Abs(ts * d - n)
  {
    MulMono(t1, ts, d);
    MulStrict(tm, t1, d);
    assert (tm + t1) * d == tm * d + t1 * d;
  }

  /** Rounding has one answer. */
  lemma NearestUnique(f: Fmt, n: nat, d: nat, a: nat, b: nat)
    requires WellFormed(f) && d > 0 && Nearest(f, n, d, a) && Nearest(f, n, d, b)
    ensures a == b
  {
    if a < b {
      NotBothNearest(f, n, d, a, b);
    } else if b < a {
      NotBothNearest(f, n, d, b, a);
    }
  }

  lemma NotBothNearest(f: Fmt, n: nat, d: nat, lo: nat, hi: nat)
    requires WellFormed(f) && d > 0 && lo < hi
    ensures !(Nearest(f, n, d, lo) && Nearest(f, n, d, hi))
  {
    if Nearest(f, n, d, lo) && Nearest(f, n, d, hi) {
      assert hi < InfMag(f);
      assert Distance(f, n, d, lo) <= Distance(f, n, d, hi);
      assert lo % 2 == 0 && hi % 2 == 0;
      NearerBetween(f, n, d, lo, hi);
      assert false;
    }
  }

  /** No point is equally far from two values and no nearer to one between them. */
  lemma NearerBetween(f: Fmt, n: nat, d: nat, lo: nat, hi: nat)
    requires d > 0 && lo + 1 < hi && Distance(f, n, d, lo) == Distance(f, n, d, hi)
    ensures Distance(f, n, d, lo + 1) < Distance(f, n, d, lo)
  {
    TicksOrder(f, lo, lo + 1);
    TicksOrder(f, lo + 1, hi);
    MulStrict(Ticks(f, lo), Ticks(f, lo + 1), d);
    MulStrict(Ticks(f, lo + 1), Ticks(f, hi), d);
  }

  /** A value the format holds rounds to itself. */
  lemma ExactIsNearest(f: Fmt, m: nat, d: nat)
    requires WellFormed(f) && m < InfMag(f) && d > 0
    ensures Nearest(f, Ticks(f, m) * d, d, m)
  {
    var top := InfMag(f);
    var n := Ticks(f, m) * d;
    TicksOrder(f, m, top - 1);
    TicksStep(f, top - 1);
    Doubled(Ticks(f, m), Ticks(f, top - 1) + Ticks(f, top), d);
    assert Distance(f, n, d, m) == 0;
    forall s: nat | s < top && s != m
      ensures Distance(f, n, d, s) != 0
    {
      TicksOrder(f, if s < m then s else m, if s < m then m else s);
      Cancel(Ticks(f, s), Ticks(f, m), d);
    }
  }

  lemma Doubled(t: nat, u: nat, d: nat)
    requires d > 0 && 2 * t < u
    ensures 2 * (t * d) < u * d
  {
    MulStrict(2 * t, u, d);
  }

  /** Only the value of the fraction matters. */
  lemma BetweenScale(f: Fmt, n: nat, d: nat, n': nat, d': nat, m: nat)
    requires d > 0 && d' > 0 && n * d' == n' * d
    requires Between(f, n, d, m)
    ensures Between(f, n', d', m)
  {
    var up := Ticks(f, m) + Ticks(f, m + 1);
    ScaleSide(n, d, n', d', up);
    if m > 0 {
      ScaleSide(n, d, n', d', Ticks(f, m - 1) + Ticks(f, m));
    }
  }

  lemma ScaleSide(n: nat, d: nat, n': nat, d': nat, t: nat)
    requires d > 0 && d' > 0 && n * d' == n' * d
    ensures t * d <= 2 * n <==> t * d' <= 2 * n'
    ensures 2 * n <= t * d <==> 2 * n' <= t * d'
  {
    Cancel(t * d, 2 * n, d');
    Cancel(t * d', 2 * n', d);
    Cancel(2 * n, t * d, d');
    Cancel(2 * n', t * d', d);
    assert t * d * d' == t * d' * d;
    assert 2 * n * d' == 2 * n' * d;
  }
}
