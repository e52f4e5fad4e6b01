/**
 Add, Mul and Div of the BPF float runtime, each proved to return the exact result of
 its operands rounded once (IEEE 754-2019, sections 4.3.1 and 5.4.1), with the results
 of sections 6.1 to 6.3 for zeros, infinities and NaNs.
 */
module FloatArith {
  import opened Words
  import opened FloatSpec
  import opened StickyBits
  import opened SoftFloat

  datatype Class = Num | Zero | Inf | Nan

  datatype Parts = Parts(cls: Class, sign: bool, exp: int, sig: u64)

  function CanonicalNan(f: Fmt): nat
    requires WellFormed(f)
  {
    InfMag(f) + Pow2(f.mant - 1)
  }

  /** bits with the quiet bit set. */
  function Quiet(f: Fmt, bits: nat): nat
    requires WellFormed(f) && IsBits(f, bits)
  {
    if bits / Pow2(f.mant - 1) % 2 == 1 then bits else bits + Pow2(f.mant - 1)
  }

  // ---- what the operations are to return ----

  /** r is a + b: exactly, rounded once; a zero sum is +0 unless both operands are negative. */
  ghost predicate IsSum(f: Fmt, a: nat, b: nat, r: nat)
    requires WellFormed(f) && IsBits(f, a) && IsBits(f, b)
  {
    if IsNan(f, a) || IsNan(f, b) then IsNan(f, r)
    else if IsInf(f, a) && IsInf(f, b) then if a == b then r == a else IsNan(f, r)
    else if IsInf(f, a) then r == a
    else if IsInf(f, b) then r == b
    else
      var v := Value(f, a) + Value(f, b);
      if v == 0 then r == WithSign(f, Negative(f, a) && Negative(f, b), 0)
      else Rounded(f, v < 0, Abs(v), 1, r)
  }

  /** r is a * b, exactly, rounded once. */
  ghost predicate IsProduct(f: Fmt, a: nat, b: nat, r: nat)
    requires WellFormed(f) && IsBits(f, a) && IsBits(f, b)
  {
    var neg := Negative(f, a) != Negative(f, b);
    if IsNan(f, a) || IsNan(f, b) then IsNan(f, r)
    else if IsInf(f, a) || IsInf(f, b) then
      if IsZero(f, a) || IsZero(f, b) then IsNan(f, r) else r == WithSign(f, neg, InfMag(f))
    else Rounded(f, neg, Ticks(f, Mag(f, a)) * Ticks(f, Mag(f, b)), Pow2(OneTicks(f)), r)
  }

  /** r is a / b, exactly, rounded once; a nonzero number over zero is infinite. */
  ghost predicate IsQuotient(f: Fmt, a: nat, b: nat, r: nat)
    requires WellFormed(f) && IsBits(f, a) && IsBits(f, b)
  {
    var neg := Negative(f, a) != Negative(f, b);
    if IsNan(f, a) || IsNan(f, b) then IsNan(f, r)
    else if IsInf(f, a) then if IsInf(f, b) then IsNan(f, r) else r == WithSign(f, neg, InfMag(f))
    else if IsInf(f, b) then r == WithSign(f, neg, 0)
    else if IsZero(f, b) then if IsZero(f, a) then IsNan(f, r) else r == WithSign(f, neg, InfMag(f))
    else Rounded(f, neg, Ticks(f, Mag(f, a)) * Pow2(OneTicks(f)), Ticks(f, Mag(f, b)), r)
  }

  // ---- Unpack ----

  /** The exponent counted from that of the smallest subnormal. */
  function Height(f: Fmt, exp: int): int { exp + f.bias - 1 + f.mant }

  /** p holds the nonzero finite magnitude m with its hidden bit at position mant. */
  predicate Holds(f: Fmt, p: Parts, m: nat) {
    && Pow2(f.mant) <= p.sig < 2 * Pow2(f.mant)
    && 0 <= Height(f, p.exp) && p.exp <= f.bias
    && p.sig * Pow2(Height(f, p.exp)) == Ticks(f, m) * Pow2(f.mant)
  }

  predicate Unpacked(f: Fmt, bits: nat, p: Parts)
    requires WellFormed(f) && IsBits(f, bits)
  {
    && p.sign == Negative(f, bits)
    && (p.cls.Nan? <==> IsNan(f, bits))
    && (p.cls.Inf? <==> IsInf(f, bits))
    && (p.cls.Zero? <==> IsZero(f, bits))
    && (p.cls.Num? ==> Holds(f, p, Mag(f, bits)))
  }

  /** The exponent and fraction fields are the quotient and remainder of the magnitude. */
  lemma Fields(f: Fmt, bits: u64) returns (e: nat, t: nat)
    requires WellFormed(f) && IsBits(f, bits)
    ensures e == LowBits(Shr(bits, f.mant), if f.is64 then 11 else 8) && t == LowBits(bits, f.mant)
    ensures Mag(f, bits) == Pow2(f.mant) * e + t && t < Pow2(f.mant) && e <= f.emax
  {
    var p, m := Pow2(f.mant), Mag(f, bits);
    e, t := m / p, m % p;
    DivMod(m, p);
    FieldRange(p, e, f.emax + 1, t);
    assert Pow2(8) == 256;
    Pow2Add(8, 3);
    FieldsUnderSign(p, e, t, f.emax + 1, if Negative(f, bits) then 1 else 0, bits);
  }

  lemma FieldRange(p: nat, e: nat, n: nat, t: nat)
    requires p > 0 && p * e + t < n * p
    ensures e < n
  {
    if e >= n { MulMono(n, e, p); }
  }

  lemma FieldsUnderSign(p: nat, e: nat, t: nat, n: nat, neg: nat, bits: nat)
    requires p > 0 && t < p && e < n && bits == neg * (n * p) + (p * e + t)
    ensures bits / p % n == e && bits % p == t
  {
    assert p * (n * neg + e) == neg * (n * p) + p * e by {
      assert p * (n * neg) == neg * (n * p);
    }
    DivUnique(bits, p, n * neg + e, t);
    DivUnique(n * neg + e, n, neg, e);
  }

  lemma Classified(f: Fmt, bits: u64, e: nat, t: nat)
    requires WellFormed(f) && IsBits(f, bits)
    requires Mag(f, bits) == Pow2(f.mant) * e + t && t < Pow2(f.mant) && e <= f.emax
    ensures e == f.emax ==> if t == 0 then IsInf(f, bits) else IsNan(f, bits)
    ensures e < f.emax ==> IsFinite(f, bits) && (IsZero(f, bits) <==> e == 0 && t == 0)
  {
    MulMono(0, e, Pow2(f.mant));
    if e > 0 { MulMono(1, e, Pow2(f.mant)); }
    if e < f.emax { MulMono(e, f.emax - 1, Pow2(f.mant)); }
  }

  /** (bits & SignBit(f)) != 0 */
  function SignOf(f: Fmt, bits: u64): (s: bool)
    requires IsBits(f, bits)
    ensures s == Negative(f, bits)
  {
    bits / SignBit(f) % 2 == 1
  }

  method Unpack(f: Fmt, bits: u64) returns (p: Parts)
    requires WellFormed(f) && IsBits(f, bits)
    ensures Unpacked(f, bits, p)
  {
    ghost var e, t := Fields(f, bits);
    Classified(f, bits, e, t);
    var expMask := if f.is64 then 2047 else 255;
    var sign := SignOf(f, bits);
    var exp: int := LowBits(Shr(bits, f.mant), if f.is64 then 11 else 8);
    var sig := LowBits(bits, f.mant);
    if exp == 0 {
      if sig == 0 {
        return Parts(Zero, sign, 0, 0);
      }
      p := UnpackSubnormal(f, sign, sig);
      return;
    }
    if exp == expMask {
      return Parts(if sig == 0 then Inf else Nan, sign, 0, 0);
    }
    p := UnpackNormal(f, sign, exp, sig);
  }

  method UnpackNormal(f: Fmt, sign: bool, exp: int, frac: u64) returns (p: Parts)
    requires WellFormed(f) && 0 < exp < f.emax && frac < Pow2(f.mant)
    ensures p.sign == sign && p.cls == Num && Holds(f, p, Pow2(f.mant) * exp + frac)
  {
    NormalHolds(f, sign, exp, frac);
    p := Parts(Num, sign, exp - f.bias, Join(Bit(f.mant), frac, f.mant));
  }

  lemma NormalHolds(f: Fmt, sign: bool, e: nat, t: nat)
    requires WellFormed(f) && 0 < e < f.emax && t < Pow2(f.mant)
    ensures Pow2(f.mant) + t < TWO64 && Pow2(f.mant) % Pow2(f.mant) == 0
    ensures Holds(f, Parts(Num, sign, e - f.bias, Pow2(f.mant) + t), Pow2(f.mant) * e + t)
  {
    DivUnique(Pow2(f.mant), Pow2(f.mant), 1, 0);
    TicksOfFields(f, e, t);
    Pow2Add(f.mant, e - 1);
    assert Height(f, e - f.bias) == f.mant + (e - 1);
    ShiftHidden(Pow2(f.mant), t, Pow2(e - 1));
  }

  lemma ShiftHidden(p: nat, t: nat, x: nat)
    ensures (t + p) * (p * x) == (p + t) * x * p
  {
  }

  /** Unpack's loop: a subnormal fraction moved up until its first bit is the hidden bit. */
  method UnpackSubnormal(f: Fmt, sign: bool, frac: u64) returns (p: Parts)
    requires WellFormed(f) && 0 < frac < Pow2(f.mant)
    ensures p.sign == sign && p.cls == Num && Holds(f, p, frac)
  {
    var exp, sig := 1 - f.bias, frac;
    ghost var k: nat := 0;
    while !TestBit(sig, f.mant)
      invariant exp == 1 - f.bias - k && k <= f.mant
      invariant 0 < sig < 2 * Pow2(f.mant) && sig == frac * Pow2(k)
      decreases exp + f.bias + f.mant
    {
      BelowHidden(f, sig, frac, k);
      sig := Shl(sig, 1);
      exp := exp - 1;
      k := k + 1;
    }
    HiddenSet(Pow2(f.mant), sig);
    SubnormalHeight(f, frac, k);
    p := Parts(Num, sign, exp, sig);
    assert Height(f, exp) == f.mant - k;
  }

  lemma SubnormalHeight(f: Fmt, frac: nat, k: nat)
    requires k <= f.mant
    ensures frac * Pow2(k) * Pow2(f.mant - k) == frac * Pow2(f.mant)
  {
    Pow2Add(k, f.mant - k);
    assert frac * Pow2(k) * Pow2(f.mant - k) == frac * (Pow2(k) * Pow2(f.mant - k));
  }

  lemma HiddenSet(p: nat, sig: nat)
    requires p > 0 && sig < 2 * p
    ensures sig / p % 2 == 1 <==> p <= sig
  {
    if sig < p { DivUnique(sig, p, 0, sig); } else { DivUnique(sig, p, 1, sig - p); }
  }

  lemma BelowHidden(f: Fmt, sig: u64, frac: nat, k: nat)
    requires WellFormed(f) && 0 < sig < 2 * Pow2(f.mant) && !TestBit(sig, f.mant)
    requires frac > 0 && sig == frac * Pow2(k)
    ensures k < f.mant && Shl(sig, 1) == frac * Pow2(k + 1) < 2 * Pow2(f.mant)
  {
    HiddenSet(Pow2(f.mant), sig);
    MulMono(1, frac, Pow2(k));
    if k >= f.mant { Pow2Mono(f.mant, k); }
    Twice(frac, Pow2(k));
    DoubleFits(sig);
  }

  lemma QuietIsNan(f: Fmt, bits: nat)
    requires WellFormed(f) && IsNan(f, bits)
    ensures IsNan(f, Quiet(f, bits))
  {
    var h := Pow2(f.mant - 1);
    var t := Mag(f, bits) - InfMag(f);
    var k := if Negative(f, bits) then 4 * f.emax + 2 else 2 * f.emax;
    assert bits == h * k + t;
    if t < h {
      DivUnique(bits, h, k, t);
    } else {
      DivUnique(bits, h, k + 1, t - h);
    }
  }

  lemma CanonicalNanIsNan(f: Fmt)
    requires WellFormed(f)
    ensures IsNan(f, CanonicalNan(f))
  {
  }

  lemma DenotesAtHeight(f: Fmt, exp: int, n: nat, d: nat, num: nat, den: nat)
    requires WellFormed(f) && Height(f, exp) >= 0
    requires n * Pow2(Height(f, exp)) * den == num * d * Pow2(f.mant + 3)
    ensures Denotes(f, exp, n, d, num, den)
  {
    var w := Offset(f) + 1 - f.bias - f.mant;
    Pow2Add(Height(f, exp), w);
    Pow2Add(f.mant + 3, w);
    assert exp + Offset(f) == Height(f, exp) + w;
    WidenBoth(n, Pow2(Height(f, exp)), den, num, d, Pow2(f.mant + 3), Pow2(w));
  }

  lemma WidenBoth(n: int, x: int, den: int, num: int, d: int, y: int, w: int)
    requires n * x * den == num * d * y
    ensures n * (x * w) * den == num * d * (y * w)
  {
    assert n * (x * w) * den == n * x * den * w;
    assert num * d * (y * w) == num * d * y * w;
  }

  // ---- Add ----

  /** Adding an aligned significand to an even one keeps it a faithful stand-in. */
  lemma AgreesPlus(a: nat, j: nat, b: nat, p: nat)
    requires a % 2 == 0 && Agrees(j, b, p, 2)
    ensures Agrees(a + j, a * p + b, p, 2)
  {
    var h, k := j / 2, a / 2;
    assert (k + h) * (2 * p) == a * p + h * (2 * p);
    assert (k + h + 1) * (2 * p) == a * p + (h + 1) * (2 * p);
  }

  lemma AgreesMinus(a: nat, j: nat, b: nat, p: nat)
    requires a % 2 == 0 && Agrees(j, b, p, 2) && j <= a && b <= a * p
    ensures Agrees(a - j, a * p - b, p, 2)
  {
    var h, k := j / 2, a / 2;
    if j % 2 == 0 {
      assert (a - j) / 2 == k - h;
      assert (k - h) * (2 * p) == a * p - h * (2 * p);
      assert (k - h + 1) * (2 * p) == a * p - h * (2 * p) + 2 * p;
      assert (h + 1) * (2 * p) == h * (2 * p) + 2 * p;
    } else {
      assert (a - j) / 2 == k - h - 1;
      assert (k - h - 1) * (2 * p) == a * p - (h + 1) * (2 * p);
      assert (k - h) * (2 * p) == a * p - h * (2 * p);
    }
  }

  /** Up to three places the guard bits hold everything. */
  lemma AlignedExact(b: nat, d: nat)
    requires d <= 3
    ensures 8 * b == Jam(8 * b, Pow2(d)) * Pow2(d)
  {
    Pow2Small();
    if d == 0 {
    } else if d == 1 {
      DivUnique(8 * b, 2, 4 * b, 0);
    } else if d == 2 {
      DivUnique(8 * b, 4, 2 * b, 0);
    } else {
      DivUnique(8 * b, 8, b, 0);
    }
  }

  lemma AlignedAgrees(b: nat, d: nat)
    ensures Agrees(Jam(8 * b, Pow2(d)), 8 * b, Pow2(d), 2)
  {
    AgreesWhenEqual(8 * b, 8 * b, 1, Pow2(d) * 2);
    AgreesJam(8 * b, 8 * b, 1, Pow2(d));
  }

  lemma AlignedSize(b: nat, d: nat, k: nat, bound: nat)
    requires 0 < k <= d && bound % 2 == 0 && 8 * b < bound * Pow2(k)
    ensures Jam(8 * b, Pow2(d)) < bound
  {
    Pow2Mono(k, d);
    MulMono(Pow2(k), Pow2(d), bound);
    JamSize(8 * b, d, bound);
  }

  /** j is the significand b, with three guard bits, moved d places down. */
  predicate AlignedTo(f: Fmt, j: nat, b: nat, d: nat) {
    && Agrees(j, 8 * b, Pow2(d), 2)
    && (d <= 3 ==> 8 * b == j * Pow2(d))
    && (d == 0 ==> j == 8 * b)
    && (d >= 1 ==> j < 8 * Pow2(f.mant))
    && (d >= 2 ==> j < 4 * Pow2(f.mant))
  }

  lemma JamAligned(f: Fmt, b: nat, d: nat)
    requires WellFormed(f) && b < 2 * Pow2(f.mant)
    ensures AlignedTo(f, Jam(8 * b, Pow2(d)), b, d)
  {
    Pow2Small();
    AlignedAgrees(b, d);
    if d <= 3 { AlignedExact(b, d); }
    if d >= 1 { AlignedSize(b, d, 1, 8 * Pow2(f.mant)); }
    if d >= 2 { AlignedSize(b, d, 2, 4 * Pow2(f.mant)); }
  }

  lemma FaithfulWhenLarge(f: Fmt, sig: nat, n: nat, d: nat)
    requires Agrees(sig, n, d, 2) && 4 * Pow2(f.mant) <= sig
    ensures Faithful(f, sig, n, d)
  {
    HiddenPowers(f);
  }

  lemma SumFaithful(f: Fmt, a: nat, j: nat, b: nat, p: nat)
    requires WellFormed(f) && a % 2 == 0 && 8 * Pow2(f.mant) <= a && Agrees(j, b, p, 2)
    ensures Faithful(f, a + j, a * p + b, p)
  {
    AgreesPlus(a, j, b, p);
    FaithfulWhenLarge(f, a + j, a * p + b, p);
  }

  /** The difference, when the larger exponent has the larger significand. */
  lemma DifferenceFaithful(f: Fmt, a: nat, j: nat, b: nat, d: nat)
    requires WellFormed(f) && Pow2(f.mant) <= a && b < 2 * a && AlignedTo(f, j, b, d)
    requires d > 0 || b <= a
    ensures j <= 8 * a && 8 * b <= 8 * a * Pow2(d)
    ensures Faithful(f, 8 * a - j, 8 * a * Pow2(d) - 8 * b, Pow2(d))
  {
    Dominates(a, b, d);
    if d <= 3 {
      TakeAway(8 * a, j, Pow2(d));
    } else {
      AgreesMinus(8 * a, j, 8 * b, Pow2(d));
      FaithfulWhenLarge(f, 8 * a - j, 8 * a * Pow2(d) - 8 * b, Pow2(d));
    }
  }

  lemma TakeAway(a: int, j: int, p: int)
    ensures (a - j) * p == a * p - j * p
  {
  }

  lemma Dominates(a: nat, b: nat, d: nat)
    requires b < 2 * a && (d > 0 || b <= a)
    ensures b <= a * Pow2(d) && 8 * b <= 8 * a * Pow2(d)
    ensures d > 0 ==> b < a * Pow2(d)
  {
    if d > 0 {
      Pow2Mono(1, d);
      MulMono(2, Pow2(d), a);
    }
    assert 8 * a * Pow2(d) == 8 * (a * Pow2(d));
  }

  /** The exact sum behind the aligned significands. */
  lemma SumDenotes(f: Fmt, hi: Parts, lo: Parts, mh: nat, ml: nat, n: nat, num: nat)
    requires WellFormed(f) && Holds(f, hi, mh) && Holds(f, lo, ml) && lo.exp <= hi.exp
    requires var p := Pow2(hi.exp - lo.exp);
             || (n == 8 * hi.sig * p + 8 * lo.sig && num == Ticks(f, mh) + Ticks(f, ml))
             || (n == 8 * hi.sig * p - 8 * lo.sig && num == Ticks(f, mh) - Ticks(f, ml))
             || (n == 8 * lo.sig - 8 * hi.sig * p && num == Ticks(f, ml) - Ticks(f, mh))
    ensures Denotes(f, hi.exp, n, Pow2(hi.exp - lo.exp), num, 1)
  {
    var d := hi.exp - lo.exp;
    var p, x := Pow2(d), Pow2(Height(f, lo.exp));
    Pow2Add(Height(f, lo.exp), d);
    HiddenPowers(f);
    Raised(hi.sig, x, p);
    SumScaled(hi.sig, lo.sig, p, x, Ticks(f, mh), Ticks(f, ml), Pow2(f.mant), n, num);
    DenotesAtHeight(f, hi.exp, n, p, num, 1);
  }

  lemma Raised(a: int, x: int, p: int)
    ensures a * (x * p) == a * p * x
  {
  }

  lemma SumScaled(a: int, b: int, p: int, x: int, ta: int, tb: int, w: int, n: int, num: int)
    requires a * p * x == ta * w && b * x == tb * w
    requires || (n == 8 * a * p + 8 * b && num == ta + tb)
             || (n == 8 * a * p - 8 * b && num == ta - tb)
             || (n == 8 * b - 8 * a * p && num == tb - ta)
    ensures n * (x * p) == num * p * (8 * w)
  {
    TermScaled(a * p, p, x, ta, w);
    TermScaled(b, p, x, tb, w);
    assert 8 * (a * p) == 8 * a * p;
    Distribute(8 * (a * p), 8 * b, x * p, ta, tb, p * (8 * w));
    Associate(num, p, 8 * w);
  }

  lemma Associate(a: int, b: int, c: int)
    ensures a * b * c == a * (b * c)
  {
  }

  lemma Distribute(u: int, v: int, k: int, ta: int, tb: int, l: int)
    requires u * k == ta * l && v * k == tb * l
    ensures (u + v) * k == (ta + tb) * l && (u - v) * k == (ta - tb) * l && (v - u) * k == (tb - ta) * l
  {
    TakeAway(u, v, k);
    TakeAway(v, u, k);
    TakeAway(ta, tb, l);
    TakeAway(tb, ta, l);
    assert (u + v) * k == u * k + v * k;
    assert (ta + tb) * l == ta * l + tb * l;
  }

  lemma TermScaled(b: int, p: int, x: int, tb: int, w: int)
    requires b * x == tb * w
    ensures 8 * b * (x * p) == tb * (p * (8 * w))
  {
    assert 8 * b * (x * p) == 8 * p * (b * x);
    assert tb * (p * (8 * w)) == 8 * p * (tb * w);
  }

  function Signed(neg: bool, t: int): int { if neg then -t else t }

  /** What RoundPack is given for a sum of magnitudes. */
  lemma SumReady(f: Fmt, a: Parts, b: Parts, ma: nat, mb: nat, j: nat)
    requires WellFormed(f) && Holds(f, a, ma) && Holds(f, b, mb) && b.exp <= a.exp
    requires AlignedTo(f, j, b.sig, a.exp - b.exp)
    ensures var p := Pow2(a.exp - b.exp);
            && Faithful(f, 8 * a.sig + j, 8 * a.sig * p + 8 * b.sig, p)
            && Denotes(f, a.exp, 8 * a.sig * p + 8 * b.sig, p, Ticks(f, ma) + Ticks(f, mb), 1)
  {
    hide Agrees, Faithful, Denotes, Ticks, Pow2;
    SumFaithful(f, 8 * a.sig, j, 8 * b.sig, Pow2(a.exp - b.exp));
    SumDenotes(f, a, b, ma, mb, 8 * a.sig * Pow2(a.exp - b.exp) + 8 * b.sig, Ticks(f, ma) + Ticks(f, mb));
  }

  /** What RoundPack is given for a difference led by the higher exponent. */
  lemma DifferenceReady(f: Fmt, a: Parts, b: Parts, ma: nat, mb: nat, j: nat)
    requires WellFormed(f) && Holds(f, a, ma) && Holds(f, b, mb) && b.exp <= a.exp
    requires AlignedTo(f, j, b.sig, a.exp - b.exp) && j < 8 * a.sig
    ensures var p := Pow2(a.exp - b.exp);
            && 8 * b.sig <= 8 * a.sig * p && Ticks(f, mb) < Ticks(f, ma)
            && Faithful(f, 8 * a.sig - j, 8 * a.sig * p - 8 * b.sig, p)
            && Denotes(f, a.exp, 8 * a.sig * p - 8 * b.sig, p, Ticks(f, ma) - Ticks(f, mb), 1)
  {
    HigherIsGreater(f, a, b, ma, mb);
    DifferenceFaithful(f, a.sig, j, b.sig, a.exp - b.exp);
    SumDenotes(f, a, b, ma, mb, 8 * a.sig * Pow2(a.exp - b.exp) - 8 * b.sig, Ticks(f, ma) - Ticks(f, mb));
  }

  /** Only with equal exponents can the second significand be the larger or equal. */
  lemma ReversedReady(f: Fmt, a: Parts, b: Parts, ma: nat, mb: nat, j: nat)
    requires WellFormed(f) && Holds(f, a, ma) && Holds(f, b, mb) && b.exp <= a.exp
    requires AlignedTo(f, j, b.sig, a.exp - b.exp) && 8 * a.sig <= j
    ensures a.exp == b.exp && a.sig <= b.sig && j == 8 * b.sig
    ensures a.sig == b.sig ==> Ticks(f, ma) == Ticks(f, mb)
    ensures a.sig < b.sig ==>
              && Ticks(f, ma) < Ticks(f, mb)
              && Denotes(f, a.exp, 8 * b.sig - 8 * a.sig, 1, Ticks(f, mb) - Ticks(f, ma), 1)
  {
    if a.sig < b.sig {
      HigherIsGreater(f, b, a, mb, ma);
      SumDenotes(f, a, b, ma, mb, 8 * b.sig - 8 * a.sig, Ticks(f, mb) - Ticks(f, ma));
    } else {
      Cancel(Ticks(f, ma), Ticks(f, mb), Pow2(f.mant));
    }
  }

  /** The part of Add that meets two nonzero numbers. */
  method AddNumbers(f: Fmt, a0: Parts, b0: Parts, ghost ma: nat, ghost mb: nat) returns (r: nat)
    requires WellFormed(f) && Holds(f, a0, ma) && Holds(f, b0, mb)
    ensures var v := Signed(a0.sign, Ticks(f, ma)) + Signed(b0.sign, Ticks(f, mb));
            if v == 0 then r == 0 else Rounded(f, v < 0, Abs(v), 1, r)
  {
    if a0.exp < b0.exp {
      r := AddOrdered(f, b0, a0, mb, ma);
    } else {
      r := AddOrdered(f, a0, b0, ma, mb);
    }
  }

  method AddOrdered(f: Fmt, a: Parts, b: Parts, ghost ma: nat, ghost mb: nat) returns (r: nat)
    requires WellFormed(f) && Holds(f, a, ma) && Holds(f, b, mb) && b.exp <= a.exp
    ensures var v := Signed(a.sign, Ticks(f, ma)) + Signed(b.sign, Ticks(f, mb));
            if v == 0 then r == 0 else Rounded(f, v < 0, Abs(v), 1, r)
  {
    var aSig, bSig := AlignSignificands(f, a.sig, b.sig, a.exp - b.exp);
    if a.sign == b.sign {
      r := SumOrdered(f, a, b, aSig, bSig, ma, mb);
    } else {
      r := SubtractOrdered(f, a, b, aSig, bSig, ma, mb);
    }
  }

  method SumOrdered(f: Fmt, a: Parts, b: Parts, aSig: u64, bSig: u64, ghost ma: nat, ghost mb: nat)
    returns (r: nat)
    requires WellFormed(f) && Holds(f, a, ma) && Holds(f, b, mb) && b.exp <= a.exp
    requires aSig == 8 * a.sig && AlignedTo(f, bSig, b.sig, a.exp - b.exp) && aSig + bSig < TWO64
    ensures Ticks(f, ma) > 0 && Rounded(f, a.sign, Ticks(f, ma) + Ticks(f, mb), 1, r)
  {
    SumReady(f, a, b, ma, mb, bSig);
    TicksPositive(f, a, ma);
    r := RoundPack(f, a.sign, a.exp, aSig + bSig, 8 * a.sig * Pow2(a.exp - b.exp) + 8 * b.sig,
                   Pow2(a.exp - b.exp), Ticks(f, ma) + Ticks(f, mb), 1);
  }

  method SubtractOrdered(f: Fmt, a: Parts, b: Parts, aSig: u64, bSig: u64, ghost ma: nat, ghost mb: nat)
    returns (r: nat)
    requires WellFormed(f) && Holds(f, a, ma) && Holds(f, b, mb) && b.exp <= a.exp && a.sign != b.sign
    requires aSig == 8 * a.sig && AlignedTo(f, bSig, b.sig, a.exp - b.exp)
    ensures var v := Signed(a.sign, Ticks(f, ma)) + Signed(b.sign, Ticks(f, mb));
            if v == 0 then r == 0 else Rounded(f, v < 0, Abs(v), 1, r)
  {
    ghost var ta, tb := Ticks(f, ma), Ticks(f, mb);
    if aSig > bSig {
      DifferenceReady(f, a, b, ma, mb, bSig);
      r := RoundPack(f, a.sign, a.exp, aSig - bSig, 8 * a.sig * Pow2(a.exp - b.exp) - 8 * b.sig,
                     Pow2(a.exp - b.exp), ta - tb, 1);
    } else if aSig < bSig {
      ReversedReady(f, a, b, ma, mb, bSig);
      r := RoundPack(f, b.sign, a.exp, bSig - aSig, 8 * b.sig - 8 * a.sig, 1, tb - ta, 1);
    } else {
      ReversedReady(f, a, b, ma, mb, bSig);
      return 0;
    }
  }

  method AlignSignificands(f: Fmt, a: u64, b: u64, d: nat) returns (aSig: u64, bSig: u64)
    requires WellFormed(f) && a < 2 * Pow2(f.mant) && 0 < b < 2 * Pow2(f.mant)
    ensures aSig == 8 * a && AlignedTo(f, bSig, b, d)
    ensures aSig + bSig < TWO64
  {
    Pow2Small();
    JamAligned(f, b, d);
    aSig, bSig := Shl(a, 3), Shl(b, 3);
    if d >= 63 {
      JamAway(bSig, d);
      bSig := 1;
    } else if d > 0 {
      bSig := ShrSticky(bSig, d);
    }
  }

  lemma TicksPositive(f: Fmt, p: Parts, m: nat)
    requires WellFormed(f) && Holds(f, p, m)
    ensures Ticks(f, m) > 0
  {
    MulStrict(0, p.sig, Pow2(Height(f, p.exp)));
    assert Ticks(f, m) * Pow2(f.mant) > 0;
  }

  /** A higher exponent, or an equal one with a larger significand, is a larger value. */
  lemma HigherIsGreater(f: Fmt, a: Parts, b: Parts, ma: nat, mb: nat)
    requires WellFormed(f) && Holds(f, a, ma) && Holds(f, b, mb)
    requires b.exp < a.exp || (b.exp == a.exp && b.sig < a.sig)
    ensures Ticks(f, mb) < Ticks(f, ma)
  {
    var d, x := a.exp - b.exp, Pow2(Height(f, b.exp));
    Pow2Add(Height(f, b.exp), d);
    assert Height(f, a.exp) == Height(f, b.exp) + d;
    Dominates(a.sig, b.sig, d);
    HigherScaled(a.sig, b.sig, Pow2(d), x);
    Cancel(Ticks(f, mb), Ticks(f, ma), Pow2(f.mant));
  }

  lemma HigherScaled(a: nat, b: nat, p: nat, x: nat)
    requires b < a * p && x > 0
    ensures b * x < a * (x * p)
  {
    MulStrict(b, a * p, x);
    assert a * p * x == a * (x * p);
  }

  method Add(f: Fmt, aBits: u64, bBits: u64) returns (r: nat)
    requires WellFormed(f) && IsBits(f, aBits) && IsBits(f, bBits)
    ensures IsSum(f, aBits, bBits, r)
  {
    var a := Unpack(f, aBits);
    var b := Unpack(f, bBits);
    if a.cls.Nan? {
      QuietIsNan(f, aBits);
      return Quiet(f, aBits);
    }
    if b.cls.Nan? {
      QuietIsNan(f, bBits);
      return Quiet(f, bBits);
    }
    if a.cls.Inf? && b.cls.Inf? {
      return if a.sign == b.sign then WithSign(f, a.sign, InfMag(f)) else CanonicalNan(f);
    }
    if a.cls.Inf? {
      return WithSign(f, a.sign, InfMag(f));
    }
    if b.cls.Inf? {
      return WithSign(f, b.sign, InfMag(f));
    }
    r := AddFinite(f, aBits, a, bBits, b);
  }

  /** The part of Add that meets two finite operands. */
  method AddFinite(f: Fmt, aBits: u64, a: Parts, bBits: u64, b: Parts) returns (r: nat)
    requires WellFormed(f) && IsFinite(f, aBits) && IsFinite(f, bBits)
    requires Unpacked(f, aBits, a) && Unpacked(f, bBits, b)
    ensures IsSum(f, aBits, bBits, r)
  {
    if a.cls.Zero? && b.cls.Zero? {
      return if a.sign && b.sign then SignBit(f) else 0;
    }
    if a.cls.Zero? {
      FiniteRoundsToItself(f, bBits);
      return bBits;
    }
    if b.cls.Zero? {
      FiniteRoundsToItself(f, aBits);
      return aBits;
    }
    r := AddNumbers(f, a, b, Mag(f, aBits), Mag(f, bBits));
  }

  lemma FiniteRoundsToItself(f: Fmt, bits: nat)
    requires WellFormed(f) && IsFinite(f, bits) && !IsZero(f, bits)
    ensures Ticks(f, Mag(f, bits)) > 0
    ensures Rounded(f, Value(f, bits) < 0, Abs(Value(f, bits)), 1, bits)
  {
    TicksOrder(f, 0, Mag(f, bits));
    ExactIsNearest(f, Mag(f, bits), 1);
  }
}
