/**
 Sub, Mul and Div of the BPF float runtime: a subtraction through Add, a product from
 32-bit limbs, and a quotient from a restoring division, each rounded once.
 */
module FloatMulDiv {
  import opened Words
  import opened FloatSpec
  import opened StickyBits
  import opened SoftFloat
  import opened FloatArith

  /** r is a - b, exactly, rounded once; an exact zero is -0 only for -0 - +0. */
  ghost predicate IsDifference(f: Fmt, a: nat, b: nat, r: nat)
    requires WellFormed(f) && IsBits(f, a) && IsBits(f, b)
  {
    if IsNan(f, a) || IsNan(f, b) then IsNan(f, r)
    else if IsInf(f, a) && IsInf(f, b) then if a == b then IsNan(f, r) else r == a
    else if IsInf(f, a) then r == a
    else if IsInf(f, b) then r == WithSign(f, !Negative(f, b), InfMag(f))
    else
      var v := Value(f, a) - Value(f, b);
      if v == 0 then r == WithSign(f, Negative(f, a) && !Negative(f, b), 0)
      else Rounded(f, v < 0, Abs(v), 1, r)
  }

  /** bits << 1, compared with twice the bits of infinity. */
  predicate ShiftsAboveInf(f: Fmt, bits: nat)
    requires WellFormed(f)
  {
    2 * bits % (2 * SignBit(f)) > 2 * InfMag(f)
  }

  lemma ShiftsAboveInfIsNan(f: Fmt, bits: nat)
    requires WellFormed(f) && IsBits(f, bits)
    ensures ShiftsAboveInf(f, bits) <==> IsNan(f, bits)
  {
    DivUnique(2 * bits, 2 * SignBit(f), if Negative(f, bits) then 1 else 0, 2 * Mag(f, bits));
  }

  /** bits with the sign bit flipped. */
  function Negate(f: Fmt, bits: nat): (r: u64)
    requires IsBits(f, bits)
    ensures IsBits(f, r) && Negative(f, r) == !Negative(f, bits) && Mag(f, r) == Mag(f, bits)
  {
    if Negative(f, bits) then bits - SignBit(f) else bits + SignBit(f)
  }

  method Sub(f: Fmt, a: u64, b: u64) returns (r: nat)
    requires WellFormed(f) && IsBits(f, a) && IsBits(f, b)
    ensures IsDifference(f, a, b, r)
  {
    ShiftsAboveInfIsNan(f, a);
    ShiftsAboveInfIsNan(f, b);
    if ShiftsAboveInf(f, a) {
      QuietIsNan(f, a);
      return Quiet(f, a);
    }
    if ShiftsAboveInf(f, b) {
      QuietIsNan(f, b);
      return Quiet(f, b);
    }
    r := Add(f, a, Negate(f, b));
    DifferenceIsSum(f, a, b, r);
  }

  lemma DifferenceIsSum(f: Fmt, a: nat, b: nat, r: nat)
    requires WellFormed(f) && IsBits(f, a) && IsBits(f, b) && !IsNan(f, a) && !IsNan(f, b)
    requires IsSum(f, a, Negate(f, b), r)
    ensures IsDifference(f, a, b, r)
  {
    assert Value(f, Negate(f, b)) == -Value(f, b);
  }

  // ---- Mul ----

  /** x & 0xffffffff */
  function Low32(x: u64): u64 { x % 0x1_0000_0000 }

  /** x >> 32 */
  function High32(x: u64): u64 { x / 0x1_0000_0000 }

  /** The 128-bit product of two words below 2^53, from 32-bit limbs. */
  method MulWide(a: u64, b: u64) returns (hi: u64, lo: u64)
    requires a < 0x20_0000_0000_0000 && b < 0x20_0000_0000_0000
    ensures hi * TWO64 + lo == a * b
  {
    var a0, a1, b0, b1 := Low32(a), High32(a), Low32(b), High32(b);
    LimbProducts(a, a0, a1, b, b0, b1);
    hi, lo := AddLimbs(a0 * b0, a0 * b1, a1 * b0, a1 * b1);
  }

  /** The limb products added with their carries; mid << 32 drops what mid >> 32 carries. */
  method AddLimbs(p0: u64, p1: u64, p2: u64, p3: u64) returns (hi: u64, lo: u64)
    requires p1 <= 0xFFFF_FFFF * 0x1F_FFFF && p2 <= 0xFFFF_FFFF * 0x1F_FFFF && p3 <= 0x1F_FFFF * 0x1F_FFFF
    ensures hi * TWO64 + lo == p3 * TWO64 + (p1 + p2) * 0x1_0000_0000 + p0
  {
    var mid: u64 := High32(p0) + Low32(p1) + Low32(p2);
    MidShifted(mid);
    Pow2At32();
    lo := Join(mid * 0x1_0000_0000 % TWO64, Low32(p0), 32);
    hi := p3 + High32(p1) + High32(p2) + High32(mid);
  }

  lemma MidShifted(mid: nat)
    ensures mid * 0x1_0000_0000 % TWO64 == mid % 0x1_0000_0000 * 0x1_0000_0000
    ensures mid * 0x1_0000_0000 % TWO64 % 0x1_0000_0000 == 0
    ensures mid * 0x1_0000_0000 % TWO64 <= TWO64 - 0x1_0000_0000
  {
    var q, r := mid / 0x1_0000_0000, mid % 0x1_0000_0000;
    DivUnique(mid * 0x1_0000_0000, TWO64, q, r * 0x1_0000_0000);
  }

  lemma LimbProducts(a: nat, a0: nat, a1: nat, b: nat, b0: nat, b1: nat)
    requires a == a1 * 0x1_0000_0000 + a0 && a0 < 0x1_0000_0000 && a1 < 0x20_0000
    requires b == b1 * 0x1_0000_0000 + b0 && b0 < 0x1_0000_0000 && b1 < 0x20_0000
    ensures a * b == a1 * b1 * TWO64 + (a0 * b1 + a1 * b0) * 0x1_0000_0000 + a0 * b0
    ensures a0 * b0 <= 0xFFFF_FFFF * 0xFFFF_FFFF && a0 * b1 <= 0xFFFF_FFFF * 0x1F_FFFF
    ensures a1 * b0 <= 0x1F_FFFF * 0xFFFF_FFFF && a1 * b1 <= 0x1F_FFFF * 0x1F_FFFF
  {
    MulBound(a0, b0, 0xFFFF_FFFF, 0xFFFF_FFFF);
    MulBound(a0, b1, 0xFFFF_FFFF, 0x1F_FFFF);
    MulBound(a1, b0, 0x1F_FFFF, 0xFFFF_FFFF);
    MulBound(a1, b1, 0x1F_FFFF, 0x1F_FFFF);
    assert (a1 * 0x1_0000_0000 + a0) * b == a1 * b * 0x1_0000_0000 + a0 * b;
    assert a1 * (b1 * 0x1_0000_0000 + b0) == a1 * b1 * 0x1_0000_0000 + a1 * b0;
    assert a0 * (b1 * 0x1_0000_0000 + b0) == a0 * b1 * 0x1_0000_0000 + a0 * b0;
  }

  lemma MulBound(x: nat, y: nat, a: nat, b: nat)
    requires x <= a && y <= b
    ensures 0 <= x * y <= a * b
  {
    MulMono(x, a, y);
    MulMono(y, b, a);
  }

  /** The product of two significands cut to guard and sticky bits. */
  method MulSignificands(f: Fmt, a: u64, b: u64) returns (sig: u64)
    requires WellFormed(f) && Pow2(f.mant) <= a < 2 * Pow2(f.mant) && Pow2(f.mant) <= b < 2 * Pow2(f.mant)
    ensures Faithful(f, sig, a * b, Pow2(f.mant - 3))
  {
    // shift is positive in both formats, so the source's branch for shift <= 0 is never taken.
    var shift := f.mant - 3;
    EighthWeight(f);
    var sticky;
    MulBound(a, b, 2 * Pow2(f.mant) - 1, 2 * Pow2(f.mant) - 1);
    if !f.is64 {
      var prodLo: u64 := a * b;
      sticky := LowBits(prodLo, shift) != 0;
      sig := Shr(prodLo, shift);
    } else {
      var prodHi, prodLo := MulWide(a, b);
      WideShift(prodHi, prodLo, Pow2(shift), Pow2(64 - shift));
      sticky := LowBits(prodLo, shift) != 0;
      sig := Join(Shl(prodHi, 64 - shift), Shr(prodLo, shift), 64 - shift);
    }
    if sticky {
      sig := OrOne(sig);
    }
    ProductFaithful(f, a, b);
  }

  lemma EighthWeight(f: Fmt)
    requires WellFormed(f)
    ensures 8 * Pow2(f.mant - 3) == Pow2(f.mant)
    ensures f.is64 ==> Pow2(f.mant - 3) * Pow2(64 - (f.mant - 3)) == TWO64
    ensures f.is64 ==> Pow2(64 - (f.mant - 3)) == 0x8000
  {
    Pow2Small();
    Pow2Add(3, f.mant - 3);
    Pow2At63();
    PowerStep(63, 0x8000_0000_0000_0000, 1, 2);
    Pow2Add(f.mant - 3, 64 - (f.mant - 3));
  }

  lemma WideShift(hi: nat, lo: nat, s: nat, t: nat)
    requires s * t == TWO64 && t == 0x8000 && s > 0
    requires lo < TWO64 && hi * TWO64 + lo < 0x400_0000_0000 * TWO64
    ensures (hi * TWO64 + lo) / s == hi * t + lo / s && (hi * TWO64 + lo) % s == lo % s
    ensures hi * t % TWO64 == hi * t && hi * t % t == 0
    ensures lo / s < t && hi * t + lo / s < TWO64
  {
    DivMod(lo, s);
    assert hi * TWO64 + lo == s * (hi * t + lo / s) + lo % s by {
      assert s * (hi * t) == hi * (s * t);
    }
    DivUnique(hi * TWO64 + lo, s, hi * t + lo / s, lo % s);
    if lo / s >= t { MulMono(t, lo / s, s); }
  }

  lemma ProductFaithful(f: Fmt, a: nat, b: nat)
    requires WellFormed(f) && Pow2(f.mant) <= a && Pow2(f.mant) <= b
    ensures Faithful(f, Jam(a * b, Pow2(f.mant - 3)), a * b, Pow2(f.mant - 3))
  {
    var w, p := a * b, Pow2(f.mant - 3);
    AgreesWhenEqual(w, w, 1, p * 2);
    AgreesJam(w, w, 1, p);
    assert 8 * Pow2(f.mant) * p <= w by {
      EighthWeight(f);
      MulBound(Pow2(f.mant), Pow2(f.mant), a, b);
    }
    LargeQuotient(w, p, 8 * Pow2(f.mant));
    FaithfulWhenLarge(f, Jam(w, p), w, p);
  }

  lemma LargeQuotient(w: nat, p: nat, k: nat)
    requires p > 0 && k * p <= w
    ensures k <= w / p
  {
    DivMod(w, p);
    Regroup(p, w / p + 1);
    if w / p < k {
      MulMono(w / p + 1, k, p);
    }
  }

  lemma ProductDenotes(f: Fmt, a: Parts, b: Parts, ma: nat, mb: nat)
    requires WellFormed(f) && Holds(f, a, ma) && Holds(f, b, mb)
    ensures Denotes(f, a.exp + b.exp, a.sig * b.sig, Pow2(f.mant - 3),
                    Ticks(f, ma) * Ticks(f, mb), Pow2(OneTicks(f)))
  {
    var ha, hb, one, m := Height(f, a.exp), Height(f, b.exp), OneTicks(f), f.mant;
    var up := one + 6 + FORMAT_GAP;
    Pow2Add(ha, hb);
    Pow2Add(ha + hb, up);
    Pow2Add(up, one);
    Pow2Add(m, m);
    Pow2Add(m + m, up + one);
    Pow2Add(m - 3, Offset(f) + 4 - f.bias);
    assert m + m + (up + one) == m - 3 + (Offset(f) + 4 - f.bias);
    assert a.exp + b.exp + Offset(f) == ha + hb + up;
    ProductScaled(a.sig, Pow2(ha), Ticks(f, ma), b.sig, Pow2(hb), Ticks(f, mb), Pow2(m),
                  Pow2(up), Pow2(one), Pow2(m - 3), Pow2(Offset(f) + 4 - f.bias));
  }

  lemma ProductScaled(a: int, x: int, ta: int, b: int, y: int, tb: int, w: int,
                      u: int, one: int, q: int, v: int)
    requires a * x == ta * w && b * y == tb * w && w * w * (u * one) == q * v
    ensures a * b * (x * y * u) * one == ta * tb * q * v
  {
    calc {
      a * b * (x * y * u) * one;
      (a * x) * (b * y) * (u * one);
      (ta * w) * (tb * w) * (u * one);
      ta * tb * (w * w * (u * one));
      ta * tb * (q * v);
      ta * tb * q * v;
    }
  }

  method Mul(f: Fmt, aBits: u64, bBits: u64) returns (r: nat)
    requires WellFormed(f) && IsBits(f, aBits) && IsBits(f, bBits)
    ensures IsProduct(f, aBits, bBits, r)
  {
    var a := Unpack(f, aBits);
    var b := Unpack(f, bBits);
    var sign := a.sign != b.sign;
    if a.cls.Nan? {
      QuietIsNan(f, aBits);
      return Quiet(f, aBits);
    }
    if b.cls.Nan? {
      QuietIsNan(f, bBits);
      return Quiet(f, bBits);
    }
    if a.cls.Inf? || b.cls.Inf? {
      if a.cls.Zero? || b.cls.Zero? {
        CanonicalNanIsNan(f);
        return CanonicalNan(f);
      }
      return WithSign(f, sign, InfMag(f));
    }
    if a.cls.Zero? || b.cls.Zero? {
      ZeroIsZero(f, sign, Pow2(OneTicks(f)));
      return WithSign(f, sign, 0);
    }
    r := MulNumbers(f, sign, a, b, Mag(f, aBits), Mag(f, bBits));
  }

  method MulNumbers(f: Fmt, sign: bool, a: Parts, b: Parts, ghost ma: nat, ghost mb: nat) returns (r: nat)
    requires WellFormed(f) && Holds(f, a, ma) && Holds(f, b, mb)
    ensures Rounded(f, sign, Ticks(f, ma) * Ticks(f, mb), Pow2(OneTicks(f)), r)
  {
    hide Agrees, Faithful, Denotes, Ticks, Rounded, Pow2;
    ProductDenotes(f, a, b, ma, mb);
    var sig := MulSignificands(f, a.sig, b.sig);
    r := RoundPack(f, sign, a.exp + b.exp, sig, a.sig * b.sig, Pow2(f.mant - 3),
                   Ticks(f, ma) * Ticks(f, mb), Pow2(OneTicks(f)));
  }

  lemma ZeroIsZero(f: Fmt, sign: bool, d: nat)
    requires WellFormed(f) && d > 0
    ensures Ticks(f, 0) == 0
    ensures Rounded(f, sign, 0, d, WithSign(f, sign, 0))
  {
    ExactIsNearest(f, 0, d);
  }

  // ---- Div ----

  /** a without its last k bits. */
  function Dropped(a: nat, k: nat): nat {
    if k == 0 then a else Dropped(a, k - 1) / 2
  }

  lemma {:induction false} DroppedIsShifted(a: nat, k: nat)
    ensures Dropped(a, k) == a / Pow2(k)
  {
    if k > 0 {
      DroppedIsShifted(a, k - 1);
      DivDiv(a, Pow2(k - 1), 2);
    }
  }

  /** The dividend after i quotient bits: the top of a, then zeros. */
  function Taken(a: nat, srcBits: nat, i: nat): nat {
    if i <= srcBits then Dropped(a, srcBits - i) else 2 * Taken(a, srcBits, i - 1)
  }

  lemma TakenNext(a: u64, srcBits: nat, i: nat)
    ensures var bit := if i < srcBits && TestBit(a, srcBits - 1 - i) then 1 else 0;
            Taken(a, srcBits, i + 1) == 2 * Taken(a, srcBits, i) + bit
  {
    if i < srcBits {
      DroppedIsShifted(a, srcBits - 1 - i);
    }
  }

  lemma {:induction false} TakenWhole(a: nat, srcBits: nat, extra: nat)
    ensures Taken(a, srcBits, srcBits + extra) == a * Pow2(extra)
  {
    if extra > 0 {
      TakenWhole(a, srcBits, extra - 1);
      Twice(a, Pow2(extra - 1));
    }
  }

  lemma {:induction false} TakenGrows(a: u64, srcBits: nat, i: nat, j: nat)
    requires i <= j
    ensures Taken(a, srcBits, i) <= Taken(a, srcBits, j)
    decreases j - i
  {
    if i < j {
      TakenNext(a, srcBits, i);
      TakenGrows(a, srcBits, i + 1, j);
    }
  }

  /** Div's loop: restoring division, one quotient bit a step. */
  method Divide(a: u64, b: u64, srcBits: nat, extra: nat) returns (q: u64, rem: u64)
    requires 0 < b < 0x1000_0000_0000_0000 && a < Pow2(srcBits) && a * Pow2(extra) < b * 0x8000_0000_0000_0000
    ensures a * Pow2(extra) == b * q + rem && rem < b
  {
    q, rem := 0, 0;
    assert Taken(a, srcBits, 0) == 0 by {
      DroppedIsShifted(a, srcBits);
      DivUnique(a, Pow2(srcBits), 0, a);
    }
    for i := 0 to srcBits + extra
      invariant Taken(a, srcBits, i) == b * q + rem && rem < b
    {
      TakenNext(a, srcBits, i);
      TakenGrows(a, srcBits, i, srcBits + extra);
      TakenWhole(a, srcBits, extra);
      QuotientFits(b, q, rem, 0x8000_0000_0000_0000);
      q, rem := DivideStep(q, rem, b, i < srcBits && TestBit(a, srcBits - 1 - i));
    }
    TakenWhole(a, srcBits, extra);
  }

  lemma QuotientFits(b: nat, q: nat, rem: nat, bound: nat)
    requires b * q + rem < b * bound
    ensures q < bound
  {
    if q >= bound { MulMono(bound, q, b); }
  }

  method DivideStep(q0: u64, rem0: u64, b: u64, bit: bool) returns (q: u64, rem: u64)
    requires q0 < 0x8000_0000_0000_0000 && rem0 < b < 0x1000_0000_0000_0000
    ensures b * q + rem == 2 * (b * q0 + rem0) + (if bit then 1 else 0) && rem < b
  {
    DoubleFits(rem0);
    DoubleFits(q0);
    StepProducts(b, q0);
    rem := Shl(rem0, 1);
    if bit {
      rem := OrOne(rem);
    }
    q := Shl(q0, 1);
    if rem >= b {
      rem := rem - b;
      q := OrOne(q);
    }
  }

  lemma StepProducts(b: int, q: int)
    ensures b * (2 * q) == 2 * (b * q) && b * (2 * q + 1) == 2 * (b * q) + b
  {
  }

  /** What RoundPack is given for a quotient. */
  lemma QuotientReady(f: Fmt, a: Parts, b: Parts, ma: nat, mb: nat, q: u64, rem: nat)
    requires WellFormed(f) && Holds(f, a, ma) && Holds(f, b, mb)
    requires a.sig * Pow2(f.mant + 3) == b.sig * q + rem && rem < b.sig
    ensures Faithful(f, if rem != 0 then OrOne(q) else q, a.sig * Pow2(f.mant + 3), b.sig)
    ensures Denotes(f, a.exp - b.exp, a.sig * Pow2(f.mant + 3), b.sig,
                    Ticks(f, ma) * Pow2(OneTicks(f)), Ticks(f, mb))
  {
    HiddenPowers(f);
    QuotientFaithful(f, a.sig * Pow2(f.mant + 3), b.sig, q, rem) by {
      MulBound(Pow2(f.mant), Pow2(f.mant + 3), a.sig, Pow2(f.mant + 3));
      assert Pow2(f.mant) * Pow2(f.mant + 3) == 4 * Pow2(f.mant) * (2 * Pow2(f.mant));
      MulMono(b.sig, 2 * Pow2(f.mant), 4 * Pow2(f.mant));
    }
    QuotientDenotes(f, a, b, ma, mb);
  }

  lemma QuotientFaithful(f: Fmt, n: nat, d: nat, q: u64, rem: nat)
    requires d > 0 && n == d * q + rem && rem < d
    requires 4 * Pow2(f.mant) * d <= n && Pow2(f.mant + 2) == 4 * Pow2(f.mant)
    ensures Faithful(f, if rem != 0 then OrOne(q) else q, n, d)
  {
    DivUnique(n, d, q, rem);
    AgreesWhenEqual(n, n, 1, d * 2);
    AgreesJam(n, n, 1, d);
    LargeQuotient(n, d, 4 * Pow2(f.mant));
  }

  lemma QuotientDenotes(f: Fmt, a: Parts, b: Parts, ma: nat, mb: nat)
    requires WellFormed(f) && Holds(f, a, ma) && Holds(f, b, mb)
    ensures Denotes(f, a.exp - b.exp, a.sig * Pow2(f.mant + 3), b.sig,
                    Ticks(f, ma) * Pow2(OneTicks(f)), Ticks(f, mb))
  {
    var ha, hb, one, m, o := Height(f, a.exp), Height(f, b.exp), OneTicks(f), f.mant, Offset(f);
    assert a.exp - b.exp + o == o + ha - hb;
    Pow2Add(o + ha - hb, hb);
    Pow2Add(o, ha);
    Pow2Add(m + 3, o);
    Pow2Add(one, o + 4 - f.bias);
    assert one + (o + 4 - f.bias) == m + 3 + o;
    QuotientScaled(a.sig, Pow2(ha), Ticks(f, ma), b.sig, Pow2(hb), Ticks(f, mb), Pow2(m), Pow2(m + 3),
                   Pow2(o + ha - hb), Pow2(o), Pow2(one), Pow2(o + 4 - f.bias));
  }

  lemma QuotientScaled(a: int, x: int, ta: int, b: int, y: int, tb: int, w: int, g: int,
                       z: int, o: int, one: int, v: int)
    requires a * x == ta * w && b * y == tb * w && z * y == o * x && one * v == g * o && y > 0
    ensures a * g * z * tb == ta * one * b * v
  {
    calc {
      (a * g * z * tb) * y;
      a * g * tb * (z * y);
      a * g * tb * (o * x);
      (a * x) * (g * o) * tb;
      (ta * w) * (g * o) * tb;
      ta * (one * v) * (tb * w);
      ta * (one * v) * (b * y);
      (ta * one * b * v) * y;
    }
    Cancel(a * g * z * tb, ta * one * b * v, y);
  }

  method Div(f: Fmt, aBits: u64, bBits: u64) returns (r: nat)
    requires WellFormed(f) && IsBits(f, aBits) && IsBits(f, bBits)
    ensures IsQuotient(f, aBits, bBits, r)
  {
    var a := Unpack(f, aBits);
    var b := Unpack(f, bBits);
    var sign := a.sign != b.sign;
    if a.cls.Nan? {
      QuietIsNan(f, aBits);
      return Quiet(f, aBits);
    }
    if b.cls.Nan? {
      QuietIsNan(f, bBits);
      return Quiet(f, bBits);
    }
    if a.cls.Inf? && b.cls.Inf? {
      return CanonicalNan(f);
    }
    if a.cls.Inf? {
      return WithSign(f, sign, InfMag(f));
    }
    if b.cls.Inf? {
      return if sign then SignBit(f) else 0;
    }
    if b.cls.Zero? {
      return if a.cls.Zero? then CanonicalNan(f) else WithSign(f, sign, InfMag(f));
    }
    if a.cls.Zero? {
      ZeroOverPositive(f, sign, b, Mag(f, bBits));
      return if sign then SignBit(f) else 0;
    }
    r := DivNumbers(f, sign, a, b, Mag(f, aBits), Mag(f, bBits));
  }

  lemma ZeroOverPositive(f: Fmt, sign: bool, b: Parts, mb: nat)
    requires WellFormed(f) && Holds(f, b, mb)
    ensures Ticks(f, 0) == 0 && Rounded(f, sign, 0, Ticks(f, mb), WithSign(f, sign, 0))
  {
    TicksPositive(f, b, mb);
    ZeroIsZero(f, sign, Ticks(f, mb));
  }

  method DivNumbers(f: Fmt, sign: bool, a: Parts, b: Parts, ghost ma: nat, ghost mb: nat) returns (r: nat)
    requires WellFormed(f) && Holds(f, a, ma) && Holds(f, b, mb)
    ensures Rounded(f, sign, Ticks(f, ma) * Pow2(OneTicks(f)), Ticks(f, mb), r)
  {
    DividendFits(f, a.sig, b.sig);
    var q, rem := Divide(a.sig, b.sig, f.mant + 1, f.mant + 3);
    QuotientReady(f, a, b, ma, mb, q, rem);
    TicksPositive(f, b, mb);
    if rem != 0 {
      q := OrOne(q);
    }
    r := RoundPack(f, sign, a.exp - b.exp, q, a.sig * Pow2(f.mant + 3), b.sig,
                   Ticks(f, ma) * Pow2(OneTicks(f)), Ticks(f, mb));
  }

  lemma DividendFits(f: Fmt, a: nat, b: nat)
    requires WellFormed(f) && a < 2 * Pow2(f.mant) && Pow2(f.mant) <= b < 2 * Pow2(f.mant)
    ensures b < 0x1000_0000_0000_0000 && a < Pow2(f.mant + 1) && a * Pow2(f.mant + 3) < b * 0x8000_0000_0000_0000
  {
    HiddenPowers(f);
    MulMono(a, 2 * b, Pow2(f.mant + 3));
    MulStrict(2 * Pow2(f.mant + 3), 0x8000_0000_0000_0000, b);
    assert 2 * b * Pow2(f.mant + 3) == 2 * Pow2(f.mant + 3) * b;
  }
}
