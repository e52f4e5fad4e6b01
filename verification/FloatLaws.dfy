/**
 Laws that follow from what the operations return, for every bit pattern that is not a NaN:
 the order of the operands, the sign of the result, and the neutral numbers.
 */
module FloatLaws {
  import opened Words
  import opened FloatSpec
  import opened FloatArith
  import opened FloatConvert

  /** The number 1. */
  function One(f: Fmt): nat { Pow2(f.mant) * f.bias }

  lemma SameBits(f: Fmt, a: nat, b: nat)
    requires IsBits(f, a) && IsBits(f, b) && Negative(f, a) == Negative(f, b) && Mag(f, a) == Mag(f, b)
    ensures a == b
  {
  }

  /** An exact result is returned as it is. */
  lemma ExactReturns(f: Fmt, neg: bool, n: nat, d: nat, a: nat, r: nat)
    requires WellFormed(f) && d > 0 && IsFinite(f, a) && Negative(f, a) == neg && n == Ticks(f, Mag(f, a)) * d
    requires Rounded(f, neg, n, d, r)
    ensures r == a
  {
    ExactIsNearest(f, Mag(f, a), d);
    NearestUnique(f, n, d, Mag(f, a), Mag(f, r));
    SameBits(f, a, r);
  }

  /** Sums and products do not depend on the order of the operands. */
  lemma OperandsCommute(f: Fmt, a: nat, b: nat, r: nat)
    requires WellFormed(f) && IsBits(f, a) && IsBits(f, b)
    ensures IsSum(f, a, b, r) <==> IsSum(f, b, a, r)
    ensures IsProduct(f, a, b, r) <==> IsProduct(f, b, a, r)
  {
    var x, y := Ticks(f, Mag(f, a)), Ticks(f, Mag(f, b));
    assert x * y == y * x;
    hide Rounded;
  }

  /** A product or quotient that is not a NaN is negative exactly if one operand is. */
  lemma SignsMultiply(f: Fmt, a: nat, b: nat, r: nat)
    requires WellFormed(f) && IsBits(f, a) && IsBits(f, b) && IsBits(f, r) && !IsNan(f, r)
    requires IsProduct(f, a, b, r) || IsQuotient(f, a, b, r)
    ensures Negative(f, r) <==> Negative(f, a) != Negative(f, b)
  {
    hide Nearest;
  }

  /** Adding zero to a number gives the number; so does adding the negative zero, to zero as well. */
  lemma ZeroAdds(f: Fmt, a: nat, r: nat)
    requires WellFormed(f) && IsFinite(f, a)
    ensures !IsZero(f, a) && IsSum(f, a, 0, r) ==> r == a
    ensures IsSum(f, a, WithSign(f, true, 0), r) ==> r == a
  {
    TicksZero(f, Mag(f, a));
    assert Value(f, 0) == 0 && Value(f, WithSign(f, true, 0)) == 0;
    hide Rounded, Nearest;
    if !IsZero(f, a) && (IsSum(f, a, 0, r) || IsSum(f, a, WithSign(f, true, 0), r)) {
      ExactReturns(f, Negative(f, a), Ticks(f, Mag(f, a)), 1, a, r);
    } else if IsZero(f, a) {
      assert Value(f, a) == 0;
    }
  }

  lemma TicksZero(f: Fmt, m: nat)
    ensures Ticks(f, 0) == 0 && (m > 0 ==> Ticks(f, m) > 0)
  {
    if m > 0 {
      TicksOrder(f, 0, m);
    }
  }

  /** A number less itself is plus zero. */
  lemma Cancels(f: Fmt, a: nat, b: nat, r: nat)
    requires WellFormed(f) && IsFinite(f, a) && IsBits(f, b)
    requires Mag(f, b) == Mag(f, a) && Negative(f, b) != Negative(f, a) && IsSum(f, a, b, r)
    ensures r == 0
  {
    assert Value(f, a) + Value(f, b) == 0;
    hide Rounded;
  }

  /** One is a positive number of the format. */
  lemma OneIsANumber(f: Fmt)
    requires WellFormed(f)
    ensures IsFinite(f, One(f)) && Mag(f, One(f)) == One(f) > 0 && !Negative(f, One(f))
  {
  }

  /** Multiplying a number by one, or dividing it by one, gives the number. */
  lemma OneMultiplies(f: Fmt, a: nat, r: nat)
    requires WellFormed(f) && IsFinite(f, a)
    ensures IsFinite(f, One(f))
    ensures IsProduct(f, a, One(f), r) || IsQuotient(f, a, One(f), r) ==> r == a
  {
    OneIsANumber(f);
    OneIsOne(f);
    var n, one := Ticks(f, Mag(f, a)), Pow2(OneTicks(f));
    assert Ticks(f, Mag(f, One(f))) == one;
    hide Ticks, Rounded, Nearest, OneTicks, One, Pow2;
    if IsProduct(f, a, One(f), r) || IsQuotient(f, a, One(f), r) {
      ExactReturns(f, Negative(f, a), n * one, one, a, r);
    }
  }
}
