/**
 Bytes, and the little-endian words of a host's memory.
 */
module LittleEndian {
  import Words

  type byte = x: int | 0 <= x < 256

  function Modulus(n: nat): (r: nat)
    ensures r > 0
  {
    if n == 0 then 1 else 256 * Modulus(n - 1)
  }

  function FromBytes(s: seq<byte>): nat {
    if s == [] then 0 else s[0] + 256 * FromBytes(s[1..])
  }

  function ToBytes(v: nat, n: nat): (s: seq<byte>)
    ensures |s| == n
  {
    if n == 0 then [] else [v % 256] + ToBytes(v / 256, n - 1)
  }

  /** A word stored and read back is reduced to its size. */
  lemma {:induction false} BytesRoundTrip(v: nat, n: nat)
    ensures FromBytes(ToBytes(v, n)) == v % Modulus(n)
  {
    if n > 0 {
      BytesRoundTrip(v / 256, n - 1);
      assert ToBytes(v, n)[1..] == ToBytes(v / 256, n - 1);
      SplitMod(v, Modulus(n - 1));
    }
  }

  /** The lowest byte comes first: byte k has the weight 256^k. */
  lemma {:induction false} ByteAt(v: nat, n: nat, k: nat)
    requires k < n
    ensures ToBytes(v, n)[k] == v / Modulus(k) % 256
  {
    if k > 0 {
      ByteAt(v / 256, n - 1, k - 1);
      Words.DivDiv(v, 256, Modulus(k - 1));
    }
  }

  /** A word read back has its bytes with those weights. */
  lemma {:induction false} FirstByteLowest(s: seq<byte>, k: nat)
    requires k <= |s|
    ensures FromBytes(s) == FromBytes(s[..k]) + Modulus(k) * FromBytes(s[k..])
  {
    if k > 0 {
      var front, back := s[..k], s[k..];
      FirstByteLowest(s[1..], k - 1);
      assert front[1..] == s[1..][..k - 1] && s[1..][k - 1..] == back;
      assert FromBytes(front) == s[0] + 256 * FromBytes(front[1..]);
      Spread(FromBytes(front[1..]), Modulus(k - 1), FromBytes(back));
    } else {
      assert s[..0] == [] && s[0..] == s;
    }
  }

  lemma Spread(x: nat, m: nat, y: nat)
    ensures 256 * (x + m * y) == 256 * x + 256 * m * y
  {
  }

  lemma SplitMod(v: nat, m: nat)
    requires m > 0
    ensures v % (256 * m) == v % 256 + 256 * (v / 256 % m)
  {
    var q, r := v / 256 / m, v / 256 % m;
    assert v / 256 == m * q + r;
    assert v == (256 * m) * q + (v % 256 + 256 * r);
    assert r <= m - 1;
    RemainderIs(v, 256 * m, q, v % 256 + 256 * r);
  }

  lemma RemainderIs(v: nat, d: nat, q: nat, r: nat)
    requires d > 0 && v == d * q + r && r < d
    ensures v % d == r
  {
    var e := v / d - q;
    assert v == d * (v / d) + v % d;
    assert d * e == r - v % d;
    assert e == 0 by {
      if e >= 1 { Scale(1, e, d); }
      if e <= -1 { Scale(e, -1, d); }
    }
  }

  lemma Scale(a: int, b: int, d: nat)
    requires a <= b
    ensures d * a <= d * b
  {
  }

  lemma {:induction false} WordFits(s: seq<byte>)
    ensures FromBytes(s) < Modulus(|s|)
  {
    if s != [] {
      WordFits(s[1..]);
    }
  }

  lemma ModulusFits(size: nat)
    requires size <= 8
    ensures Modulus(size) <= Modulus(8) == 0x1_0000_0000_0000_0000
  {
    assert Modulus(4) == 0x1_0000_0000 by { assert Modulus(2) == 0x1_0000; }
    assert Modulus(8) == 0x1_0000_0000_0000_0000 by { assert Modulus(6) == 0x1_0000_0000_0000; }
    if size < 8 {
      ModulusGrows(size, 8);
    }
  }

  lemma {:induction false} ModulusGrows(a: nat, b: nat)
    requires a <= b
    ensures Modulus(a) <= Modulus(b)
    decreases b
  {
    if a < b {
      ModulusGrows(a, b - 1);
    }
  }
}
