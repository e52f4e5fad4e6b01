/**
 Comparison and conversion in the BPF float runtime: integers to floats, floats to
 integers, and between binary32 and binary64 (IEEE 754-2019, sections 5.4.1, 5.4.2,
 5.8 and 5.11).
 */
module FloatConvert {
  import opened Words
  import opened FloatSpec
  import opened StickyBits
  import opened SoftFloat
  import opened FloatArith

  // ---- Compare ----

  /** The order of two bit patterns that are not NaN is the order of their values. */
  method Compare(f: Fmt, aBits: u64, bBits: u64) returns (r: int)
    requires WellFormed(f) && IsBits(f, aBits) && IsBits(f, bBits)
    ensures IsNan(f, aBits) || IsNan(f, bBits) <==> r == 2
    ensures r != 2 ==>
              && r == (if Value(f, aBits) < Value(f, bBits) then -1
                       else if Value(f, aBits) == Value(f, bBits) then 0 else 1)
  {
    var a := Unpack(f, aBits);
    var b := Unpack(f, bBits);
    if a.cls.Nan? || b.cls.Nan? {
      return 2;
    }
    var am, bm := Mag(f, aBits), Mag(f, bBits);
    TicksOrder(f, 0, am);
    TicksOrder(f, 0, bm);
    if am < bm { TicksOrder(f, am, bm); } else { TicksOrder(f, bm, am); }
    if a.cls.Zero? && b.cls.Zero? {
      return 0;
    }
    if a.sign != b.sign {
      return if a.sign then -1 else 1;
    }
    var mag := if am < bm then -1 else if am > bm then 1 else 0;
    return if a.sign then -mag else mag;
  }

  // ---- integers to floats ----

  /** The position of the highest set bit. */
  method Msb(x0: u64) returns (n: nat)
    ensures x0 == 0 ==> n == 0
    ensures x0 > 0 ==> n < 64 && Pow2(n) <= x0 < 2 * Pow2(n)
  {
    var x := x0;
    n := 0;
    if x == 0 {
      return 0;
    }
    n, x := Halve(x0, x, n, 32, 0x1_0000_0000);
    n, x := Halve(x0, x, n, 16, 0x1_0000);
    n, x := Halve(x0, x, n, 8, 0x100);
    n, x := Halve(x0, x, n, 4, 0x10);
    n, x := Halve(x0, x, n, 2, 0x4);
    n, x := Halve(x0, x, n, 1, 0x2);
  }

  /** One test of Msb: if anything is left above the low k bits, move it down. */
  method Halve(ghost x0: u64, x: u64, n: nat, k: nat, p: nat) returns (n': nat, x': u64)
    requires (k, p) in {(32, 0x1_0000_0000), (16, 0x1_0000), (8, 0x100), (4, 0x10), (2, 4), (1, 2)}
    requires 0 < x < p * p && n + 2 * k <= 64 && Pow2(n) * x <= x0 < Pow2(n) * (x + 1)
    ensures 0 < x' < p && n' + k <= 64 && Pow2(n') * x' <= x0 < Pow2(n') * (x' + 1)
  {
    n', x' := n, x;
    if x / p != 0 {
      PowerOfEach(k, p);
      Pow2Add(n, k);
      DivMod(x, p);
      ShiftedDown(Pow2(n), p, x, x / p, x % p);
      n', x' := n + k, x / p;
    } else {
      DivMod(x, p);
    }
  }

  lemma ShiftedDown(w: nat, p: nat, x: nat, q: nat, r: nat)
    requires x == p * q + r && r < p && x < p * p
    ensures w * p * q <= w * x && w * (x + 1) <= w * p * (q + 1) && q < p
  {
    MulMono(p * q, x, w);
    assert p * (q + 1) == p * q + p;
    MulMono(x + 1, p * (q + 1), w);
    assert w * (p * q) == w * p * q && w * (p * (q + 1)) == w * p * (q + 1);
    if q >= p { MulMono(p, q, p); }
  }

  lemma PowerOfEach(k: nat, p: nat)
    requires (k, p) in {(32, 0x1_0000_0000), (16, 0x1_0000), (8, 0x100), (4, 0x10), (2, 4), (1, 2)}
    ensures Pow2(k) == p
  {
    Pow2Small();
    PowerStep(2, 4, 2, 4);
    Pow2At8();
    PowerStep(8, 0x100, 8, 0x100);
    Pow2At32();
  }

  /** What RoundPack is given for an integer whose highest bit, at msb, moves up. */
  lemma SmallIntegerReady(f: Fmt, mag: nat, msb: nat)
    requires WellFormed(f) && msb <= f.mant + 3
    ensures var up := Pow2(f.mant + 3 - msb);
            && Faithful(f, mag * up, mag * up, 1)
            && Denotes(f, msb, mag * up, 1, mag * Pow2(OneTicks(f)), 1)
  {
    hide Agrees, Denotes, Ticks, Pow2;
    var up, one := Pow2(f.mant + 3 - msb), OneTicks(f);
    Pow2Add(msb, one);
    Pow2Add(msb, f.mant + 3 - msb);
    SmallScaled(mag, up, Pow2(msb), Pow2(one));
    assert Height(f, msb) == msb + one;
    DenotesAtHeight(f, msb, mag * up, 1, mag * Pow2(one), 1);
  }

  lemma SmallScaled(mag: int, up: int, x: int, one: int)
    ensures mag * up * (x * one) * 1 == mag * one * 1 * (x * up)
  {
    assert mag * up * (x * one) == mag * one * (x * up);
  }

  /** The same for an integer whose highest bit moves down. */
  lemma LargeIntegerReady(f: Fmt, mag: nat, msb: nat)
    requires WellFormed(f) && msb > f.mant + 3 && Pow2(msb) <= mag
    ensures var p := Pow2(msb - (f.mant + 3));
            && Faithful(f, Jam(mag, p), mag, p)
            && Denotes(f, msb, mag, p, mag * Pow2(OneTicks(f)), 1)
  {
    hide Agrees, Denotes, Ticks, Pow2, Jam, Faithful;
    var p, one := Pow2(msb - (f.mant + 3)), OneTicks(f);
    Pow2Add(msb, one);
    Pow2Add(f.mant + 3, msb - (f.mant + 3));
    LargeScaled(mag, p, Pow2(f.mant + 3), Pow2(one));
    assert Height(f, msb) == msb + one;
    DenotesAtHeight(f, msb, mag, p, mag * Pow2(one), 1);
    IntegerFaithful(f, mag, p);
  }

  lemma LargeScaled(mag: int, p: int, t: int, one: int)
    ensures mag * (t * p * one) * 1 == mag * one * p * t
  {
    assert mag * (t * p * one) == mag * one * (p * t);
  }

  lemma IntegerFaithful(f: Fmt, mag: nat, p: nat)
    requires WellFormed(f) && p > 0 && Pow2(f.mant + 3) * p <= mag
    ensures Faithful(f, Jam(mag, p), mag, p)
  {
    AgreesWhenEqual(mag, mag, 1, p * 2);
    AgreesJam(mag, mag, 1, p);
    HiddenPowers(f);
    MulMono(4 * Pow2(f.mant), Pow2(f.mant + 3), p);
    JamLarge(mag, p, 4 * Pow2(f.mant));
    FaithfulWhenLarge(f, Jam(mag, p), mag, p);
  }

  lemma JamLarge(w: nat, p: nat, k: nat)
    requires p > 0 && k * p <= w
    ensures k <= Jam(w, p)
  {
    DivMod(w, p);
    Regroup(p, w / p + 1);
    if w / p < k {
      MulMono(w / p + 1, k, p);
    }
  }

  method FromUnsigned(f: Fmt, mag: u64) returns (bits: nat)
    requires WellFormed(f)
    ensures Rounded(f, false, mag * Pow2(OneTicks(f)), 1, bits)
  {
    if mag == 0 {
      ZeroRoundsToZero(f);
      return 0;
    }
    var msb := Msb(mag);
    var top := f.mant + 3;
    hide Agrees, Denotes, Ticks, Faithful, Nearest;
    if msb <= top {
      ShiftFits(f, mag, msb);
      SmallIntegerReady(f, mag, msb);
      var sig := Shl(mag, top - msb);
      bits := RoundPack(f, false, msb, sig, mag * Pow2(top - msb), 1, mag * Pow2(OneTicks(f)), 1);
    } else {
      LargeIntegerReady(f, mag, msb);
      var sig := ShrSticky(mag, msb - top);
      bits := RoundPack(f, false, msb, sig, mag, Pow2(msb - top), mag * Pow2(OneTicks(f)), 1);
    }
  }

  lemma ZeroRoundsToZero(f: Fmt)
    requires WellFormed(f)
    ensures Rounded(f, false, 0, 1, 0)
  {
    ExactIsNearest(f, 0, 1);
  }

  lemma ShiftFits(f: Fmt, mag: u64, msb: nat)
    requires WellFormed(f) && msb <= f.mant + 3 && mag < 2 * Pow2(msb)
    ensures Shl(mag, f.mant + 3 - msb) == mag * Pow2(f.mant + 3 - msb)
  {
    var k := f.mant + 3 - msb;
    Pow2Add(msb, k);
    HiddenPowers(f);
    Fits(mag, Pow2(msb), Pow2(k), 8 * Pow2(f.mant));
  }

  lemma Fits(mag: nat, x: nat, y: nat, top: nat)
    requires mag < 2 * x && y > 0 && x * y == top && 2 * top < TWO64
    ensures mag * y % TWO64 == mag * y
  {
    MulStrict(mag, 2 * x, y);
    assert 2 * x * y == 2 * (x * y);
  }

  const INT64_MIN: int := -0x8000_0000_0000_0000
  const INT64_MAX: int := 0x7FFF_FFFF_FFFF_FFFF

  method FromSigned(f: Fmt, x: int) returns (bits: nat)
    requires WellFormed(f) && INT64_MIN <= x <= INT64_MAX
    ensures Rounded(f, x < 0, Abs(x) * Pow2(OneTicks(f)), 1, bits)
  {
    if x == 0 {
      ZeroRoundsToZero(f);
      return 0;
    }
    if x > 0 {
      bits := FromUnsigned(f, x);
      return;
    }
    var mag: u64 := if x == INT64_MIN then 0x8000_0000_0000_0000 else -x;
    bits := FromUnsigned(f, mag);
    bits := bits + SignBit(f);
  }

  // ---- floats to integers ----

  /** The number 1 has the exponent field bias, and is 2^OneTicks(f) ticks. */
  lemma OneIsOne(f: Fmt)
    requires WellFormed(f)
    ensures Ticks(f, Pow2(f.mant) * f.bias) == Pow2(OneTicks(f))
  {
    TicksOfFields(f, f.bias, 0);
    Pow2Add(f.mant, f.bias - 1);
    hide Ticks, Pow2;
  }

  /** x cut to the range of int64_t. */
  function Saturated(x: int): int {
    if x < INT64_MIN then INT64_MIN else if x > INT64_MAX then INT64_MAX else x
  }

  /** The value of a finite bit pattern with its fraction dropped. */
  function Truncated(f: Fmt, bits: nat): int
    requires WellFormed(f) && IsBits(f, bits)
  {
    var t: int := Ticks(f, Mag(f, bits)) / Pow2(OneTicks(f));
    if Negative(f, bits) then -t else t
  }

  /** Truncation is toward zero: it has the value's sign, is no larger, and misses less than one. */
  lemma TruncatedMeans(f: Fmt, bits: nat)
    requires WellFormed(f) && IsFinite(f, bits) && IsBits(f, bits)
    ensures var t, v, one := Truncated(f, bits), Value(f, bits), Pow2(OneTicks(f));
            if v >= 0 then 0 <= t * one <= v < (t + 1) * one else (t - 1) * one < v <= t * one <= 0
  {
    var n, one := Ticks(f, Mag(f, bits)), Pow2(OneTicks(f));
    hide Ticks, OneTicks, Pow2;
    DivMod(n, one);
    var q: int := n / one;
    assert q * one == one * q && (q + 1) * one == one * q + one;
    assert (0 - q) * one == 0 - one * q && (0 - q - 1) * one == 0 - one * q - one;
    assert q * one >= 0;
  }

  lemma RatioFloor(a: nat, b: nat, c: nat, d: nat)
    requires b > 0 && d > 0 && a * d == c * b
    ensures a / b == c / d
  {
    var q, r := c / d, c % d;
    DivMod(c, d);
    assert a * d == d * (q * b) + r * b by {
      assert (d * q + r) * b == d * (q * b) + r * b;
    }
    Cancel(q * b, a, d);
    MulMono(0, r, b);
    assert q * b * d == d * (q * b);
    MulStrict(r, d, b);
    assert (q * b + b) * d == d * (q * b) + d * b;
    Cancel(q * b + b, a, d);
    assert a == b * q + (a - q * b);
    DivUnique(a, b, q, a - q * b);
  }

  /** |value| as ToSigned computes it, by the exponent of the hidden bit. */
  lemma TruncatedParts(f: Fmt, p: Parts, m: nat)
    requires WellFormed(f) && Holds(f, p, m)
    ensures var t := Ticks(f, m) / Pow2(OneTicks(f));
            && (p.exp >= 63 ==> t >= 0x8000_0000_0000_0000)
            && (p.exp < 0 ==> t == 0)
            && (f.mant <= p.exp < 63 ==> t == p.sig * Pow2(p.exp - f.mant) < 0x8000_0000_0000_0000)
            && (0 <= p.exp < f.mant ==> t == p.sig / Pow2(f.mant - p.exp) < 0x8000_0000_0000_0000)
  {
    hide Ticks;
    var one := OneTicks(f);
    assert Height(f, p.exp) == p.exp + one;
    if p.exp < 0 {
      TruncatedSmall(f, p, m);
    } else if p.exp < f.mant {
      Pow2Add(p.exp, one);
      Pow2Add(p.exp, f.mant - p.exp);
      TruncateBelow(p.sig, Pow2(p.exp), Pow2(one), Ticks(f, m), Pow2(f.mant), Pow2(f.mant - p.exp));
      RatioFloor(Ticks(f, m), Pow2(one), p.sig, Pow2(f.mant - p.exp));
      Shrink(p.sig, Pow2(f.mant - p.exp));
    } else {
      TruncatedLarge(f, p, m);
    }
  }

  lemma TruncateBelow(sig: nat, x: nat, one: nat, t: nat, w: nat, y: nat)
    requires sig * (x * one) == t * w && w == x * y && x > 0
    ensures t * y == sig * one
  {
    assert (t * y) * x == (sig * one) * x;
    Cancel(t * y, sig * one, x);
  }

  lemma TruncatedSmall(f: Fmt, p: Parts, m: nat)
    requires WellFormed(f) && Holds(f, p, m) && p.exp < 0
    ensures Ticks(f, m) / Pow2(OneTicks(f)) == 0
  {
    hide Ticks;
    var one := OneTicks(f);
    Pow2Mono(Height(f, p.exp), one - 1);
    MulMono(Pow2(Height(f, p.exp)), Pow2(one - 1), p.sig);
    MulStrict(p.sig, 2 * Pow2(f.mant), Pow2(one - 1));
    assert 2 * Pow2(f.mant) * Pow2(one - 1) == Pow2(one) * Pow2(f.mant);
    Cancel(Pow2(one), Ticks(f, m), Pow2(f.mant));
    DivUnique(Ticks(f, m), Pow2(one), 0, Ticks(f, m));
  }

  lemma TruncatedLarge(f: Fmt, p: Parts, m: nat)
    requires WellFormed(f) && Holds(f, p, m) && p.exp >= f.mant
    ensures var t := Ticks(f, m) / Pow2(OneTicks(f));
            && t == p.sig * Pow2(p.exp - f.mant)
            && (p.exp >= 63 <==> t >= 0x8000_0000_0000_0000)
  {
    hide Ticks;
    var one, up := OneTicks(f), p.exp - f.mant;
    assert Height(f, p.exp) == f.mant + (up + one);
    Pow2Add(f.mant, up + one);
    Pow2Add(up, one);
    WholePart(p.sig, Pow2(f.mant), Pow2(up), Pow2(one), Ticks(f, m));
    var t := p.sig * Pow2(up);
    DivUnique(Ticks(f, m), Pow2(one), t, 0);
    hide Pow2;
    Pow2Add(f.mant, up);
    Pow2At63();
    LargeBounds(Pow2(f.mant), p.sig, Pow2(up));
    if p.exp >= 63 { Pow2Mono(63, p.exp); } else { Pow2Mono(p.exp + 1, 63); Pow2Next(p.exp); }
  }

  lemma LargeBounds(w: nat, sig: nat, u: nat)
    requires w <= sig < 2 * w && u > 0
    ensures w * u <= sig * u < 2 * (w * u)
  {
    MulMono(w, sig, u);
    MulStrict(sig, 2 * w, u);
  }

  lemma WholePart(sig: nat, w: nat, u: nat, one: nat, t: nat)
    requires w > 0 && sig * (w * (u * one)) == t * w
    ensures t == one * (sig * u)
  {
    assert sig * (w * (u * one)) == one * (sig * u) * w;
    Cancel(t, one * (sig * u), w);
  }

  method ToSigned(f: Fmt, bits: u64) returns (r: int)
    requires WellFormed(f) && IsBits(f, bits)
    ensures IsNan(f, bits) ==> r == 0
    ensures IsInf(f, bits) ==> r == if Negative(f, bits) then INT64_MIN else INT64_MAX
    ensures IsFinite(f, bits) ==> r == Saturated(Truncated(f, bits))
  {
    var p := Unpack(f, bits);
    if p.cls.Nan? || p.cls.Zero? {
      TruncatedZero(f);
      return 0;
    }
    if p.cls.Inf? {
      return if p.sign then INT64_MIN else INT64_MAX;
    }
    r := ToSignedNumber(f, p, Mag(f, bits));
  }

  lemma TruncatedZero(f: Fmt)
    requires WellFormed(f)
    ensures Ticks(f, 0) / Pow2(OneTicks(f)) == 0
  {
    DivUnique(0, Pow2(OneTicks(f)), 0, 0);
  }

  /** The part of ToSigned that meets a nonzero number. */
  method ToSignedNumber(f: Fmt, p: Parts, ghost m: nat) returns (r: int)
    requires WellFormed(f) && Holds(f, p, m)
    ensures var t: int := Ticks(f, m) / Pow2(OneTicks(f));
            r == Saturated(if p.sign then -t else t)
  {
    hide *;
    TruncatedWord(f, p, m);
    if p.exp >= 63 {
      return if p.sign then INT64_MIN else INT64_MAX;
    }
    if p.exp < 0 {
      return 0;
    }
    var mag: u64 := if p.exp >= f.mant then Shl(p.sig, p.exp - f.mant) else Shr(p.sig, f.mant - p.exp);
    r := SignedWord(p.sign, mag);
  }

  /** The end of ToSigned: the magnitude with its sign, saturated. */
  function SignedWord(sign: bool, mag: u64): (r: int)
    ensures r == Saturated(if sign then 0 - mag else mag)
  {
    if sign then (if mag > INT64_MAX then INT64_MIN else 0 - mag)
    else if mag > INT64_MAX then INT64_MAX else mag
  }

  lemma TruncatedWord(f: Fmt, p: Parts, m: nat)
    requires WellFormed(f) && Holds(f, p, m)
    ensures var t: int := Ticks(f, m) / Pow2(OneTicks(f));
            && (p.exp >= 63 ==> Saturated(t) == INT64_MAX && Saturated(-t) == INT64_MIN)
            && (p.exp < 0 ==> Saturated(t) == 0 && Saturated(-t) == 0)
            && (f.mant <= p.exp < 63 ==> t == Shl(p.sig, p.exp - f.mant))
            && (0 <= p.exp < f.mant ==> t == Shr(p.sig, f.mant - p.exp))
  {
    hide *;
    TruncatedParts(f, p, m);
    WordOf(f, p, Ticks(f, m) / Pow2(OneTicks(f)));
  }

  lemma WordOf(f: Fmt, p: Parts, t: nat)
    requires p.exp >= 63 ==> t >= 0x8000_0000_0000_0000
    requires p.exp < 0 ==> t == 0
    requires f.mant <= p.exp < 63 ==> t == p.sig * Pow2(p.exp - f.mant) < 0x8000_0000_0000_0000
    requires 0 <= p.exp < f.mant ==> t == p.sig / Pow2(f.mant - p.exp) < 0x8000_0000_0000_0000
    ensures p.exp >= 63 ==> Saturated(t) == INT64_MAX && Saturated(0 - t) == INT64_MIN
    ensures p.exp < 0 ==> Saturated(t) == 0 && Saturated(0 - t) == 0
    ensures f.mant <= p.exp < 63 ==> t == Shl(p.sig, p.exp - f.mant)
    ensures 0 <= p.exp < f.mant ==> t == Shr(p.sig, f.mant - p.exp)
  {
    hide Pow2;
  }

  // ---- between the formats ----

  /** A binary32 tick is this many binary64 ticks. */
  function TickRatio(src: Fmt, dst: Fmt): nat
    requires WellFormed(src) && WellFormed(dst)
  {
    Pow2(Abs(OneTicks(dst) - OneTicks(src)))
  }

  /** w is the binary32 number x in binary64, exactly. */
  predicate IsWidened(src: Fmt, dst: Fmt, x: nat, w: nat)
    requires WellFormed(src) && WellFormed(dst) && IsBits(src, x)
  {
    && IsBits(dst, w)
    && (IsNan(src, x) <==> IsNan(dst, w))
    && (!IsNan(src, x) ==> Negative(dst, w) == Negative(src, x))
    && (IsInf(src, x) ==> IsInf(dst, w))
    && (IsFinite(src, x) ==>
          IsFinite(dst, w) && Ticks(dst, Mag(dst, w)) == Ticks(src, Mag(src, x)) * TickRatio(src, dst))
  }

  /** r is the binary64 number w in binary32, rounded once. */
  ghost predicate IsNarrowed(src: Fmt, dst: Fmt, w: nat, r: nat)
    requires WellFormed(src) && WellFormed(dst) && IsBits(src, w)
  {
    if IsNan(src, w) then IsNan(dst, r)
    else if IsInf(src, w) then r == WithSign(dst, Negative(src, w), InfMag(dst))
    else Rounded(dst, Negative(src, w), Ticks(src, Mag(src, w)), TickRatio(src, dst), r)
  }

  predicate Singles(f: Fmt) { f == Fmt32() }

  predicate Doubles(f: Fmt) { f == Fmt64() }

  /** What RoundPack is given for a widened number, and that nothing is lost. */
  lemma WidenReady(src: Fmt, dst: Fmt, p: Parts, m: nat)
    requires WellFormed(src) && WellFormed(dst) && Singles(src) && Doubles(dst) && Holds(src, p, m)
    ensures Denotes(dst, p.exp + (dst.mant - src.mant), p.sig * 8, 1, Ticks(src, m) * TickRatio(src, dst), 1)
  {
    hide Ticks, Denotes, Pow2;
    var gap := OneTicks(dst) - OneTicks(src);
    var exp := p.exp + (dst.mant - src.mant);
    assert Height(dst, exp) == Height(src, p.exp) + (gap + (dst.mant - src.mant));
    Pow2Add(Height(src, p.exp), gap + (dst.mant - src.mant));
    Pow2Add(gap, dst.mant - src.mant);
    Pow2Add(src.mant, dst.mant - src.mant);
    HiddenPowers(dst);
    WidenScaled(p.sig, Pow2(Height(src, p.exp)), Ticks(src, m), Pow2(src.mant), Pow2(gap),
                Pow2(dst.mant - src.mant));
    DenotesAtHeight(dst, exp, p.sig * 8, 1, Ticks(src, m) * TickRatio(src, dst), 1);
  }

  lemma WidenScaled(sig: int, x: int, t: int, w: int, g: int, u: int)
    requires sig * x == t * w
    ensures sig * 8 * (x * (g * u)) * 1 == t * g * 1 * (8 * (w * u))
  {
    assert sig * 8 * (x * (g * u)) == sig * x * (8 * (g * u));
    assert t * w * (8 * (g * u)) == t * g * (8 * (w * u));
  }

  /** A binary32 number is a binary64 number. */
  lemma WidenRepresentable(src: Fmt, dst: Fmt, p: Parts, m: nat) returns (w: nat)
    requires WellFormed(src) && WellFormed(dst) && Singles(src) && Doubles(dst) && Holds(src, p, m)
    ensures w < InfMag(dst) && Ticks(dst, w) == Ticks(src, m) * TickRatio(src, dst)
  {
    var gap, up := OneTicks(dst) - OneTicks(src), dst.mant - src.mant;
    var t, e := p.sig * Pow2(up), Height(src, p.exp) + gap - dst.mant;
    Pow2Add(src.mant, up);
    MulMono(Pow2(src.mant), p.sig, Pow2(up));
    MulStrict(p.sig, 2 * Pow2(src.mant), Pow2(up));
    assert 2 * Pow2(src.mant) * Pow2(up) == 2 * Pow2(dst.mant);
    TicksAt(dst, e, t);
    w := e * Pow2(dst.mant) + t;
    MulMono(e + 2, dst.emax, Pow2(dst.mant));
    Pow2Add(e, dst.mant);
    Pow2Add(Height(src, p.exp), gap);
    assert e + dst.mant == Height(src, p.exp) + gap;
    RepresentableScaled(p.sig, Pow2(up), Pow2(e), Pow2(src.mant), Pow2(Height(src, p.exp)), Pow2(gap),
                        Ticks(src, m));
  }

  lemma RepresentableScaled(sig: nat, u: nat, e: nat, w: nat, x: nat, g: nat, t: nat)
    requires sig * x == t * w && e * (w * u) == x * g && w > 0
    ensures sig * u * e == t * g
  {
    calc {
      sig * u * e * w;
      sig * (e * (w * u));
      sig * (x * g);
      sig * x * g;
      t * w * g;
      t * g * w;
    }
    Cancel(sig * u * e, t * g, w);
  }

  method WidenNumber(src: Fmt, dst: Fmt, p: Parts, ghost m: nat) returns (bits: nat)
    requires WellFormed(src) && WellFormed(dst) && Singles(src) && Doubles(dst) && Holds(src, p, m)
    ensures IsBits(dst, bits) && Negative(dst, bits) == p.sign && IsFinite(dst, bits)
    ensures Ticks(dst, Mag(dst, bits)) == Ticks(src, m) * TickRatio(src, dst)
  {
    WidenReady(src, dst, p, m);
    Pow2Small();
    ghost var num := Ticks(src, m) * TickRatio(src, dst);
    ghost var w := WidenRepresentable(src, dst, p, m);
    bits := RoundPack(dst, p.sign, p.exp + (dst.mant - src.mant), Shl(p.sig, 3), p.sig * 8, 1, num, 1);
    ExactIsNearest(dst, w, 1);
    NearestUnique(dst, num, 1, w, Mag(dst, bits));
  }

  method Widen(bits: u64) returns (w: nat)
    requires IsBits(Fmt32(), bits)
    ensures WellFormed(Fmt32()) && WellFormed(Fmt64()) && IsWidened(Fmt32(), Fmt64(), bits, w)
  {
    FormatsWellFormed();
    w := WidenBetween(Fmt32(), Fmt64(), bits);
  }

  method WidenBetween(src: Fmt, dst: Fmt, bits: u64) returns (w: nat)
    requires WellFormed(src) && WellFormed(dst) && Singles(src) && Doubles(dst) && IsBits(src, bits)
    ensures IsWidened(src, dst, bits, w)
  {
    var p := Unpack(src, bits);
    if p.cls.Nan? {
      CanonicalNanIsNan(dst);
      return CanonicalNan(dst);
    }
    if p.cls.Inf? {
      return WithSign(dst, p.sign, InfMag(dst));
    }
    if p.cls.Zero? {
      return WithSign(dst, p.sign, 0);
    }
    w := WidenNumber(src, dst, p, Mag(src, bits));
  }

  /** What RoundPack is given for a narrowed number. */
  lemma NarrowReady(src: Fmt, dst: Fmt, p: Parts, m: nat)
    requires WellFormed(src) && WellFormed(dst) && Doubles(src) && Singles(dst) && Holds(src, p, m)
    ensures var sh := src.mant - (dst.mant + 3);
            && Faithful(dst, Jam(p.sig, Pow2(sh)), p.sig, Pow2(sh))
            && Denotes(dst, p.exp, p.sig, Pow2(sh), Ticks(src, m), TickRatio(src, dst))
  {
    var sh, gap := src.mant - (dst.mant + 3), OneTicks(src) - OneTicks(dst);
    Pow2Add(dst.mant + 3, sh);
    NarrowFaithful(dst, p.sig, Pow2(sh));
    hide Ticks, Faithful, Pow2;
    var rest := Offset(dst) - OneTicks(dst);
    assert p.exp + Offset(dst) + gap == Height(src, p.exp) + rest;
    Pow2Add(p.exp + Offset(dst), gap);
    Pow2Add(Height(src, p.exp), rest);
    Pow2Add(sh, Offset(dst) + 4 - dst.bias);
    Pow2Add(src.mant, rest);
    assert src.mant + rest == sh + (Offset(dst) + 4 - dst.bias);
    NarrowScaled(p.sig, Pow2(Height(src, p.exp)), Ticks(src, m), Pow2(src.mant), Pow2(rest),
                 Pow2(p.exp + Offset(dst)), Pow2(gap), Pow2(sh), Pow2(Offset(dst) + 4 - dst.bias));
  }

  lemma NarrowScaled(sig: int, x: int, t: int, w: int, r: int, y: int, g: int, s: int, v: int)
    requires sig * x == t * w && y * g == x * r && w * r == s * v
    ensures sig * y * g == t * s * v
  {
    calc {
      sig * y * g;
      sig * (x * r);
      sig * x * r;
      t * w * r;
      t * (s * v);
    }
  }

  lemma NarrowFaithful(dst: Fmt, sig: nat, p: nat)
    requires WellFormed(dst) && p > 0 && Pow2(dst.mant + 3) * p <= sig
    ensures Faithful(dst, Jam(sig, p), sig, p)
  {
    IntegerFaithful(dst, sig, p);
  }

  method Narrow(bits: u64) returns (r: nat)
    requires IsBits(Fmt64(), bits)
    ensures WellFormed(Fmt32()) && WellFormed(Fmt64()) && IsNarrowed(Fmt64(), Fmt32(), bits, r)
  {
    FormatsWellFormed();
    r := NarrowBetween(Fmt64(), Fmt32(), bits);
  }

  method NarrowBetween(src: Fmt, dst: Fmt, bits: u64) returns (r: nat)
    requires WellFormed(src) && WellFormed(dst) && Doubles(src) && Singles(dst) && IsBits(src, bits)
    ensures IsNarrowed(src, dst, bits, r)
  {
    var p := Unpack(src, bits);
    if p.cls.Nan? {
      CanonicalNanIsNan(dst);
      return CanonicalNan(dst);
    }
    if p.cls.Inf? {
      return WithSign(dst, p.sign, InfMag(dst));
    }
    if p.cls.Zero? {
      ExactIsNearest(dst, 0, TickRatio(src, dst));
      return WithSign(dst, p.sign, 0);
    }
    NarrowReady(src, dst, p, Mag(src, bits));
    hide Ticks, Faithful, Denotes, Agrees, Pow2, Nearest;
    var sh := src.mant - (dst.mant + 3);
    var sig := ShrSticky(p.sig, sh);
    r := RoundPack(dst, p.sign, p.exp, sig, p.sig, Pow2(sh), Ticks(src, Mag(src, bits)), TickRatio(src, dst));
  }

  /** Widening and narrowing back gives every number that is not a NaN unchanged. */
  lemma NarrowOfWidened(src: Fmt, dst: Fmt, x: nat, w: nat, r: nat)
    requires WellFormed(src) && WellFormed(dst) && IsBits(src, x) && !IsNan(src, x)
    requires IsWidened(src, dst, x, w) && IsNarrowed(dst, src, w, r)
    ensures r == x
  {
    hide Ticks, Nearest;
    if IsFinite(src, x) {
      ExactIsNearest(src, Mag(src, x), TickRatio(dst, src));
      NearestUnique(src, Ticks(dst, Mag(dst, w)), TickRatio(dst, src), Mag(src, x), Mag(src, r));
    }
  }
}
