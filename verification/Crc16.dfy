/**
 The packets of the 6502 server: the bitwise CRC as the C code computes it on an int, its
 low 16 bits as a remainder of polynomials, and what a packet's check accepts.
 */
module Crc16 {
  import opened Words
  import opened GF2

  /** A char, sign-extended where the code uses it. */
  type i8 = x: int | -128 <= x < 128

  type u16 = x: int | 0 <= x < 65536

  /** The bits of an int. */
  type u32 = x: int | 0 <= x < TWO32

  const TWO32: int := 0x1_0000_0000

  function Byte(c: i8): nat { c % 256 }

  // ---- the 16 meaningful bits ----

  lemma Fits16(a: nat, b: nat)
    requires a < 65536 && b < 65536
    ensures Xor(a, b) < 65536
  {
    Powers();
    XorFits(a, b, 16);
  }

  lemma RotateFits(r: u16)
    ensures r >= 32768 ==> Xor(2 * r, POLY) == Xor(2 * r - 65536, 0x1021) < 65536
  {
    if r >= 32768 {
      Split16(2 * r, POLY);
      XorSelf(1);
      Fits16(2 * r - 65536, 0x1021);
    }
  }

  /** One rotation: times x, less the generator when x^16 appears. */
  function Rotate(r: u16): u16 {
    RotateFits(r);
    if r >= 32768 then Xor(2 * r, POLY) else 2 * r
  }

  function Rotations(r: u16, n: nat): u16 { if n == 0 then r else Rotate(Rotations(r, n - 1)) }

  function CrcByte(r: u16, c: i8): u16 {
    Fits16(r, Byte(c) * 256);
    Rotations(Xor(r, Byte(c) * 256), 8)
  }

  function Crc(data: seq<i8>, seed: u16): u16 {
    if data == [] then seed else CrcByte(Crc(data[..|data| - 1], seed), data[|data| - 1])
  }

  /** The low 16 terms and the rest of a sum. */
  lemma Split16(a: nat, b: nat)
    ensures Xor(a, b) % 65536 == Xor(a % 65536, b % 65536) && Xor(a, b) / 65536 == Xor(a / 65536, b / 65536)
  {
    hide Xor;
    XorSplits(a, b, 16);
    Parts16(a);
    Parts16(b);
    Parts16(Xor(a, b));
  }

  lemma Parts16(a: nat)
    ensures Low(a, 16) == a % 65536 && High(a, 16) == a / 65536
  {
    HighAndLow(a, 16);
    AsShifts(High(a, 16));
    Powers();
    hide Low, High;
    DivUnique(a, 65536, High(a, 16), Low(a, 16));
  }

  /** Whatever the upper bits of the int hold, a rotation of the code is one of the low 16 bits. */
  lemma CodeRotates(crc: u32)
    ensures var shifted := 2 * crc % TWO32;
            if shifted / 65536 % 2 == 1 then Xor(shifted, 0x1021) % 65536 == Rotate(crc % 65536)
            else shifted % 65536 == Rotate(crc % 65536)
  {
    var shifted, low := 2 * crc % TWO32, crc % 65536;
    ShiftedLow(crc);
    if low >= 32768 {
      Split16(shifted, 0x1021);
      RotateFits(low);
    }
    hide Xor;
  }

  lemma ShiftedLow(crc: u32)
    ensures var shifted, low := 2 * crc % TWO32, crc % 65536;
            && (shifted / 65536 % 2 == 1 <==> low >= 32768)
            && shifted % 65536 == if low >= 32768 then 2 * low - 65536 else 2 * low
  {
  }

  lemma SignExtended(c: i8)
    ensures c * 256 % TWO32 == (if c < 0 then c * 256 + TWO32 else c * 256)
    ensures c * 256 % TWO32 % 65536 == Byte(c) * 256
  {
    if c < 0 {
      DivUnique(c * 256 + TWO32, 65536, 65535, (c + 256) * 256);
    }
  }

  lemma CodeAddsByte(crc: u32, c: i8)
    ensures Xor(crc, c * 256 % TWO32) % 65536 == Xor(crc % 65536, Byte(c) * 256)
    ensures Xor(crc, c * 256 % TWO32) < TWO32
  {
    SignExtended(c);
    hide Xor, Byte, Pow2;
    var wide := c * 256 % TWO32;
    Split16(crc, wide);
    Pow2At32();
    XorFits(crc, wide, 32);
  }

  /** Only the low 16 bits of the result mean anything, and they are the CRC. */
  method CRC16(addr: array<i8>, num: int, crc0: u32) returns (crc: u32)
    requires num <= addr.Length
    ensures crc % 65536 == Crc(addr[..if num < 0 then 0 else num], crc0 % 65536)
  {
    crc := crc0;
    ghost var n := if num < 0 then 0 else num;
    var i := 0;
    hide Xor, Rotate, Byte;
    while i < num
      invariant 0 <= i <= n && crc % 65536 == Crc(addr[..i], crc0 % 65536)
    {
      assert addr[..i + 1][..i] == addr[..i];
      CodeAddsByte(crc, addr[i]);
      crc := Xor(crc, addr[i] * 256 % TWO32);
      ghost var start := crc % 65536;
      var j := 0;
      while j < 8
        invariant 0 <= j <= 8 && crc % 65536 == Rotations(start, j)
      {
        CodeRotates(crc);
        crc := 2 * crc % TWO32;
        if crc / 65536 % 2 == 1 {
          crc := Xor(crc, 0x1021) % 65536;
        }
        j := j + 1;
      }
      assert crc % 65536 == CrcByte(Crc(addr[..i], crc0 % 65536), addr[i]);
      i := i + 1;
    }
  }

  // ---- the CRC as a remainder ----

  /** The bytes as coefficients, the first byte highest. */
  function Value(data: seq<i8>): nat {
    if data == [] then 0 else 256 * Value(data[..|data| - 1]) + Byte(data[|data| - 1])
  }

  lemma RotateCongruent(r: u16)
    ensures Congruent(2 * r, Rotate(r))
  {
    if r >= 32768 {
      TimesOne();
      RotateFits(r);
      assert Xor(2 * r, Times(1)) == Rotate(r);
    } else {
      CongruentSelf(2 * r);
    }
  }

  lemma {:induction false} RotationsCongruent(r: u16, n: nat)
    ensures Congruent(Shift(r, n), Rotations(r, n))
  {
    if n == 0 {
      CongruentSelf(r);
    } else {
      RotationsCongruent(r, n - 1);
      CongruentDoubled(Shift(r, n - 1), Rotations(r, n - 1));
      RotateCongruent(Rotations(r, n - 1));
      hide Congruent, Rotate;
      CongruentTrans(Shift(r, n), 2 * Rotations(r, n - 1), Rotations(r, n));
    }
  }

  /** The seed ahead of the message, and the message times x^16. */
  function Dividend(data: seq<i8>, seed: u16): nat {
    Xor(Shift(seed, 8 * |data|), Shift(Value(data), 16))
  }

  lemma ByteAppended(v: nat, b: nat)
    requires b < 256
    ensures Xor(Shift(v, 8), b) == 256 * v + b
  {
    Powers();
    ShiftIs(v, 8);
    XorApart(v, b, 8);
  }

  lemma SumShifted(s: nat, v: nat, b: nat, n: nat)
    requires b < 256
    ensures Xor(Shift(s, n + 8), Shift(256 * v + b, 16)) == Xor(Shift(Xor(Shift(s, n), Shift(v, 16)), 8), Shift(b, 16))
  {
    hide *;
    ByteAppended(v, b);
    XorShifts(Shift(s, n), Shift(v, 16), 8);
    ShiftAdds(s, n, 8);
    ShiftAdds(v, 16, 8);
    ShiftAdds(v, 8, 16);
    XorShifts(Shift(v, 8), b, 16);
    XorAssociates(Shift(s, n + 8), Shift(v, 24), Shift(b, 16));
  }

  /** One more byte: everything times x^8, and the byte times x^16. */
  lemma DividendNext(data: seq<i8>, c: i8, seed: u16)
    ensures Dividend(data + [c], seed) == Xor(Shift(Dividend(data, seed), 8), Shift(Byte(c), 16))
  {
    assert (data + [c])[..|data|] == data;
    assert Value(data + [c]) == 256 * Value(data) + Byte(c);
    hide Xor, Value, Shift;
    SumShifted(seed, Value(data), Byte(c), 8 * |data|);
  }

  lemma ByteCongruent(a: nat, r: u16, c: i8)
    requires Congruent(a, r)
    ensures Congruent(Xor(Shift(a, 8), Shift(Byte(c), 16)), CrcByte(r, c))
  {
    var b := Byte(c);
    hide Xor, Congruent, Shift;
    Fits16(r, b * 256);
    CongruentShifted(a, r, 8);
    CongruentSelf(Shift(b, 16));
    CongruentSum(Shift(a, 8), Shift(r, 8), Shift(b, 16), Shift(b, 16));
    Powers();
    ShiftIs(b, 8);
    ShiftAdds(b, 8, 8);
    XorShifts(r, b * 256, 8);
    RotationsCongruent(Xor(r, b * 256), 8);
    CongruentTrans(Xor(Shift(a, 8), Shift(b, 16)), Shift(Xor(r, b * 256), 8), CrcByte(r, c));
  }

  /** The CRC is the remainder of the message times x^16, with any seed ahead of it. */
  lemma {:induction false} CrcIsRemainder(data: seq<i8>, seed: u16)
    ensures IsRemainder(Dividend(data, seed), Crc(data, seed))
  {
    if data == [] {
      XorZero(seed);
      assert Shift(0, 16) == 0 by { AsShifts(0); }
      CongruentSelf(seed);
    } else {
      var n := |data| - 1;
      CrcIsRemainder(data[..n], seed);
      ByteCongruent(Dividend(data[..n], seed), Crc(data[..n], seed), data[n]);
      DividendNext(data[..n], data[n], seed);
      assert data == data[..n] + [data[n]];
      hide Congruent, Dividend, CrcByte;
    }
  }

  /** A message may be checked in pieces, each with the CRC of the one before as its seed. */
  lemma {:induction false} CrcInPieces(a: seq<i8>, b: seq<i8>, seed: u16)
    ensures Crc(a + b, seed) == Crc(b, Crc(a, seed))
  {
    if b == [] {
      assert a + b == a;
    } else {
      var n := |b| - 1;
      CrcInPieces(a, b[..n], seed);
      assert (a + b)[..|a + b| - 1] == a + b[..n];
    }
  }

  lemma SumOfEquals(a: nat, b: nat)
    requires Xor(a, b) == 0
    ensures a == b
  {
    XorCancels(a, b);
    XorZero(b);
  }

  /** An error within 16 consecutive bits changes the CRC. */
  lemma BurstDetected(d1: seq<i8>, d2: seq<i8>, seed: u16, e: nat, k: nat)
    requires |d1| == |d2| && Xor(Value(d1), Value(d2)) == Shift(e, k) && 0 < e < 65536
    ensures Crc(d1, seed) != Crc(d2, seed)
  {
    if Crc(d1, seed) == Crc(d2, seed) {
      hide Xor, Shift, Value, Crc, Times;
      var r := Crc(d1, seed);
      CrcIsRemainder(d1, seed);
      CrcIsRemainder(d2, seed);
      CongruentSum(Dividend(d1, seed), r, Dividend(d2, seed), r);
      XorSelf(r);
      XorSwap(Shift(seed, 8 * |d1|), Shift(Value(d1), 16), Shift(seed, 8 * |d1|), Shift(Value(d2), 16));
      XorSelf(Shift(seed, 8 * |d1|));
      XorShifts(Value(d1), Value(d2), 16);
      XorZero(Shift(Shift(e, k), 16));
      ShiftAdds(e, k, 16);
      assert Congruent(Shift(e, k + 16), 0);
      var q: nat :| Xor(Shift(e, k + 16), Times(q)) == 0;
      SumOfEquals(Shift(e, k + 16), Times(q));
      NoShortMultiple(q, e, k + 16);
    }
  }

  // ---- packets ----

  /** The length byte: of the data and the CRC, in 8 bits. */
  function LengthOf(n: nat): nat { (n % 256 + 2) % 256 }

  /** How many bytes of data are checked for a length byte. */
  function Checked(length: nat): nat { if length < 2 then 0 else length - 2 }

  predicate Accepted(length: nat, crc: u16, data: seq<i8>)
    requires Checked(length) <= |data|
  {
    Crc(data[..Checked(length)], 0) == crc
  }

  lemma CheckedInData(data: seq<i8>)
    ensures Checked(LengthOf(|data|)) <= |data|
    ensures Checked(LengthOf(|data|)) == |data| <==> |data| <= 253
  {
  }

  /** The length is n + 2 in a byte; it covers n mod 256 bytes, or none when that needs more than the byte holds. */
  lemma LengthCovers(n: nat)
    ensures LengthOf(n) < 256 && (LengthOf(n) - (n + 2)) % 256 == 0
    ensures Checked(LengthOf(n)) == if n % 256 <= 253 then n % 256 else 0
  {
    var q, r := n / 256, n % 256;
    assert n == 256 * q + r;
    if r <= 253 {
      DivUnique(r + 2, 256, 0, r + 2);
      DivUnique(LengthOf(n) - (n + 2), 256, -q, 0);
    } else {
      DivUnique(r + 2, 256, 1, r - 254);
      DivUnique(LengthOf(n) - (n + 2), 256, -q - 1, 0);
    }
  }

  class Packet {
    var length: nat
    var crc: u16
    const data: array<i8>

    constructor (data: array<i8>)
      ensures this.data == data
    {
      length, crc := 0, 0;
      this.data := data;
    }

    /** The data is already in place. */
    method BuildPacket(datalen: nat)
      requires datalen <= data.Length
      modifies this
      ensures length == LengthOf(datalen) && crc == Crc(data[..datalen], 0)
    {
      length := (datalen % 256 + 2) % 256;
      var full := CRC16(data, datalen, 0);
      crc := full % 65536;
    }

    /** The length of an accepted packet, or -1. */
    method ProcessPacket() returns (result: int)
      requires Checked(length) <= data.Length
      ensures result == if Accepted(length, crc, data[..]) then length else -1
    {
      var full := CRC16(data, length - 2, 0);
      assert data[..][..Checked(length)] == data[..Checked(length)];
      if full % 65536 != crc {
        return -1;
      }
      result := length;
    }
  }

  /** A packet of at most 253 bytes is accepted as it was built, and says how long it is. */
  lemma BuiltIsAccepted(data: seq<i8>)
    requires |data| <= 253
    ensures LengthOf(|data|) == |data| + 2 && Checked(LengthOf(|data|)) <= |data|
    ensures Accepted(LengthOf(|data|), Crc(data, 0), data)
  {
    CheckedInData(data);
    assert data[..|data|] == data;
  }

  /** A damaged packet is refused when the damage lies within 16 consecutive bits of the data. */
  lemma DamageIsRefused(data: seq<i8>, damaged: seq<i8>, e: nat, k: nat)
    requires |data| == |damaged| <= 253 && 0 < e < 65536 && Xor(Value(data), Value(damaged)) == Shift(e, k)
    ensures Checked(LengthOf(|data|)) <= |damaged|
    ensures !Accepted(LengthOf(|data|), Crc(data, 0), damaged)
  {
    CheckedInData(data);
    BurstDetected(data, damaged, 0, e, k);
    assert damaged[..|damaged|] == damaged;
  }

  function Zeros(n: nat): (s: seq<i8>)
    ensures |s| == n
  {
    if n == 0 then [] else Zeros(n - 1) + [0]
  }

  lemma {:induction false} ZerosHaveNone(n: nat)
    ensures Value(Zeros(n)) == 0 && Crc(Zeros(n), 0) == 0
  {
    if n > 0 {
      ZerosHaveNone(n - 1);
      assert Zeros(n)[..n - 1] == Zeros(n - 1);
      assert CrcByte(0, 0) == 0 by {
        XorZero(0);
        NoRotation(8);
      }
    }
  }

  lemma {:induction false} NoRotation(n: nat)
    ensures Rotations(0, n) == 0
  {
    if n > 0 {
      NoRotation(n - 1);
    }
  }

  lemma OneAtEnd(n: nat)
    ensures |Zeros(n) + [1]| == n + 1 && Value(Zeros(n) + [1]) == 1
  {
    hide *;
    ZerosHaveNone(n);
    ValueNext(Zeros(n), 1);
  }

  lemma ValueNext(data: seq<i8>, c: i8)
    requires 0 <= c
    ensures Value(data + [c]) == 256 * Value(data) + c
  {
    assert (data + [c])[..|data|] == data;
  }

  /** What the length of a long packet covers, of zeros and a one, are zeros. */
  lemma OnlyZerosChecked(n: nat)
    requires n >= 254
    ensures var data := Zeros(n - 1) + [1];
            && |data| == n && Checked(LengthOf(n)) < n
            && Crc(data[..Checked(LengthOf(n))], 0) == 0
  {
    var data, k := Zeros(n - 1) + [1], Checked(LengthOf(n));
    assert k < n;
    ZerosPrefix(n - 1, k);
    assert data[..k] == Zeros(n - 1)[..k];
    ZerosHaveNone(k);
  }

  lemma {:induction false} ZerosPrefix(n: nat, k: nat)
    requires k <= n
    ensures Zeros(n)[..k] == Zeros(k)
  {
    if k < n {
      ZerosPrefix(n - 1, k);
      assert Zeros(n)[..k] == Zeros(n - 1)[..k];
    }
  }

  lemma RefusedByCrc(data: seq<i8>, n: nat)
    requires |data| == n && Checked(LengthOf(n)) < n && Crc(data[..Checked(LengthOf(n))], 0) != Crc(data, 0)
    ensures !Accepted(LengthOf(n), Crc(data, 0), data)
  {
  }

  /** Of any size from 254 bytes on, where the length wraps, some packet is refused as it was built. */
  lemma LongPacketRefused(n: nat)
    requires n >= 254
    ensures var data := Zeros(n - 1) + [1];
            |data| == n && Checked(LengthOf(n)) <= n && !Accepted(LengthOf(n), Crc(data, 0), data)
  {
    hide *;
    var data, zeros := Zeros(n - 1) + [1], Zeros(n);
    OneAtEnd(n - 1);
    ZerosHaveNone(n);
    XorZero(1);
    ShiftIs(1, 0);
    PowerOfZero();
    BurstDetected(data, zeros, 0, 1, 0);
    OnlyZerosChecked(n);
    RefusedByCrc(data, n);
  }

  /** The packets of a size are all accepted as they were built exactly when the size is at most 253. */
  lemma BuiltAreAcceptedExactly(n: nat)
    ensures Checked(LengthOf(n)) <= n
    ensures (forall data: seq<i8> | |data| == n :: Accepted(LengthOf(n), Crc(data, 0), data)) <==> n <= 253
  {
    hide Crc, Zeros;
    forall data: seq<i8> | |data| == n <= 253
      ensures Accepted(LengthOf(n), Crc(data, 0), data)
    {
      BuiltIsAccepted(data);
    }
    if n > 253 {
      LongPacketRefused(n);
    }
  }

  lemma PowerOfZero()
    ensures Pow2(0) == 1
  {
  }
}
