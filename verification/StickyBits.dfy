/**
 Sticky bits.  A significand sig stands in for an exact n / d when it is n / d cut to an
 integer whose last bit records whether anything was cut off.  What rounding may rely on
 is weaker and survives shifting: on the grid of multiples of g, sig and n / d lie in the
 same cell, and one is on a grid line exactly when the other is.
 */
module StickyBits {
  import opened Words

  predicate Agrees(sig: nat, n: nat, d: nat, g: nat)
    requires g > 0
  {
    var h := sig / g;
    && h * (g * d) <= n < (h + 1) * (g * d)
    && (sig % g == 0 <==> n == h * (g * d))
  }

  /** x / p with the last bit set when the division is not exact. */
  function Jam(x: nat, p: nat): nat
    requires p > 0
  {
    if x % p != 0 && x / p % 2 == 0 then x / p + 1 else x / p
  }

  lemma AgreesWhenEqual(sig: nat, n: nat, d: nat, g: nat)
    requires g > 0 && d > 0 && n == sig * d
    ensures Agrees(sig, n, d, g)
  {
    var h, r := sig / g, sig % g;
    DivMod(sig, g);
    assert n == h * (g * d) + r * d by {
      calc { (g * h + r) * d; g * h * d + r * d; h * (g * d) + r * d; }
    }
    MulMono(0, r, d);
    MulStrict(r, g, d);
    if r > 0 { MulMono(1, r, d); }
    assert (h + 1) * (g * d) == h * (g * d) + g * d;
  }

  /** A coarser grid loses nothing. */
  lemma AgreesCoarser(sig: nat, n: nat, d: nat, g: nat, c: nat)
    requires g > 0 && c > 0 && d > 0 && Agrees(sig, n, d, g)
    ensures g * c > 0 && Agrees(sig, n, d, g * c)
  {
    MulStrict(0, g, c);
    var h, r := sig / g / c, sig / g % c;
    DivDiv(sig, g, c);
    DivMod(sig / g, c);
    assert sig / (g * c) == h;
    CoarserCell(sig / g, h, r, c, g * d, n);
    assert g * c * d == c * (g * d);
  }

  lemma CoarserCell(k: nat, h: nat, r: nat, c: nat, u: nat, n: nat)
    requires k == c * h + r && r < c && k * u <= n < (k + 1) * u
    ensures h * (c * u) <= n < (h + 1) * (c * u)
    ensures n == h * (c * u) <==> r == 0 && n == k * u
  {
    assert k * u == h * (c * u) + r * u by {
      calc { (c * h + r) * u; c * h * u + r * u; h * (c * u) + r * u; }
    }
    assert (k + 1) * u == k * u + u;
    assert (h + 1) * (c * u) == h * (c * u) + c * u;
    MulMono(0, r, u);
    MulMono(r + 1, c, u);
    assert (r + 1) * u == r * u + u;
    if r >= 1 { MulMono(1, r, u); }
  }

  /** Doubling both sides doubles the grid. */
  lemma AgreesDouble(sig: nat, n: nat, d: nat, g: nat)
    requires g > 0 && Agrees(sig, n, d, g)
    ensures Agrees(2 * sig, 2 * n, d, 2 * g)
  {
    var h, r := sig / g, sig % g;
    DivMod(sig, g);
    assert 2 * sig == (2 * g) * h + 2 * r;
    DivUnique(2 * sig, 2 * g, h, 2 * r);
    assert h * (2 * g * d) == 2 * (h * (g * d));
    assert (h + 1) * (2 * g * d) == 2 * ((h + 1) * (g * d));
  }

  /** Shifting right with a sticky bit. */
  lemma AgreesJam(sig: nat, n: nat, d: nat, p: nat)
    requires p > 0 && d > 0 && Agrees(sig, n, d, p * 2)
    ensures Agrees(Jam(sig, p), n, d * p, 2)
  {
    DivDiv(sig, p, 2);
    var t := Jam(sig, p);
    assert t / 2 == sig / p / 2;
    assert t % 2 == 0 <==> sig % (p * 2) == 0;
    var h := sig / (p * 2);
    assert h * (2 * (d * p)) == h * (p * 2 * d);
    assert (h + 1) * (2 * (d * p)) == (h + 1) * (p * 2 * d);
  }

  /** The carry the last three bits of sig produce, ties going to the even quotient. */
  function RoundEighth(sig: nat): nat {
    if sig / 4 % 2 == 1 && (sig % 4 != 0 || sig / 8 % 2 == 1) then sig / 8 + 1 else sig / 8
  }

  /** q is n / (8 * d) to nearest, ties to even, stated with the half unit u = 4 * d. */
  predicate NearestEighth(q: nat, n: nat, u: nat) {
    && (2 * q - 1) * u <= n <= (2 * q + 1) * u
    && (q % 2 == 1 ==> (2 * q - 1) * u < n < (2 * q + 1) * u)
  }

  lemma RoundEighthNearest(sig: nat, n: nat, d: nat)
    requires d > 0 && Agrees(sig, n, d, 4)
    ensures NearestEighth(RoundEighth(sig), n, 4 * d)
  {
    var h, u := sig / 4, 4 * d;
    assert sig / 8 == h / 2;
    assert (h + 1) * u == h * u + u;
    var q := RoundEighth(sig);
    if q == h / 2 {
      if h % 2 == 0 {
        assert 2 * q == h;
      } else {
        assert 2 * q + 1 == h;
      }
      assert (2 * q - 1) * u == 2 * q * u - u;
      assert (2 * q + 1) * u == 2 * q * u + u;
    } else {
      assert 2 * q - 1 == h;
      assert (2 * q + 1) * u == (2 * q - 1) * u + 2 * u;
    }
  }
}
