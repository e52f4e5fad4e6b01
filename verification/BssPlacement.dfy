/**
 The .bss inputs of all objects, placed in a row by masking off the low bits of an address,
 and for which alignments the mask aligns.
 */
module BssPlacement {
  import Bits = PowerOfTwo
  import opened Words
  import opened Layout
  import opened Placement

  // ---- the mask ----

  /** x & ~m */
  function ClearBits(x: nat, m: nat): (r: nat)
    ensures r <= x <= r + m
    decreases x
  {
    if x == 0 then 0 else 2 * ClearBits(x / 2, m / 2) + (if x % 2 == 1 && m % 2 == 0 then 1 else 0)
  }

  /** In words of k bits it is the and with the complement. */
  lemma {:induction false} ClearBitsIsAnd(x: nat, m: nat, k: nat)
    requires x < Pow2(k) && m < Pow2(k)
    ensures ClearBits(x, m) == Bits.And(x, Pow2(k) - 1 - m)
  {
    if x > 0 {
      var c := Pow2(k) - 1 - m;
      ClearBitsIsAnd(x / 2, m / 2, k - 1);
      assert c / 2 == Pow2(k - 1) - 1 - m / 2 && (c % 2 == 1 <==> m % 2 == 0);
      AndNothing(x);
      AndNothing(x / 2);
    }
  }

  lemma AndNothing(x: nat)
    ensures Bits.And(x, 0) == 0
  {
  }

  lemma {:induction false} ClearLow(y: nat, k: nat)
    ensures Pow2(k) >= 1 && ClearBits(y, Pow2(k) - 1) == y / Pow2(k) * Pow2(k)
  {
    if k == 0 {
      ClearNone(y);
    } else if y == 0 {
      DivUnique(0, Pow2(k), 0, 0);
    } else {
      var p := Pow2(k - 1);
      ClearLow(y / 2, k - 1);
      assert (Pow2(k) - 1) / 2 == p - 1 && (Pow2(k) - 1) % 2 == 1;
      DivDiv(y, 2, p);
      assert ClearBits(y, Pow2(k) - 1) == 2 * (y / 2 / p * p);
      Doubled(y / 2 / p, p);
    }
  }

  lemma Doubled(q: int, p: int)
    ensures 2 * (q * p) == q * (2 * p)
  {
  }

  lemma {:induction false} ClearNone(y: nat)
    ensures ClearBits(y, 0) == y
  {
    if y > 0 {
      ClearNone(y / 2);
    }
  }

  lemma {:induction false} ClearSelf(y: nat)
    ensures ClearBits(y, y) == 0
  {
    if y > 0 {
      ClearSelf(y / 2);
    }
  }

  /** What is left of a without the bits of a - 1 is its lowest bit, which is all of a only for a power of two. */
  lemma {:induction false} LowestBit(a: nat)
    requires a > 0
    ensures 0 < ClearBits(a, a - 1) <= a && (ClearBits(a, a - 1) == a ==> PowerOfTwo(a))
  {
    if a == 1 {
      ClearNone(1);
      assert IsPow2(1, 0);
    } else if a % 2 == 1 {
      assert (a - 1) / 2 == a / 2;
      ClearSelf(a / 2);
    } else {
      assert (a - 1) / 2 == a / 2 - 1;
      LowestBit(a / 2);
      if ClearBits(a, a - 1) == a {
        var k: nat :| IsPow2(a / 2, k);
        assert IsPow2(a, k + 1);
      }
    }
  }

  /** (x + a - 1) & ~(a - 1) */
  function MaskUp(x: nat, a: nat): (r: nat)
    requires a > 0
    ensures x <= r < x + a
  {
    ClearBits(x + a - 1, a - 1)
  }

  lemma MaskIsRound(x: nat, a: nat)
    requires a > 0 && PowerOfTwo(a)
    ensures MaskUp(x, a) == RoundUp(x, a)
  {
    var k: nat :| IsPow2(a, k);
    ClearLow(x + a - 1, k);
  }

  /** The mask aligns every address exactly for the powers of two. */
  lemma MaskAlignsExactly(a: nat)
    requires a > 0
    ensures (forall x: nat :: MaskUp(x, a) % a == 0) <==> PowerOfTwo(a)
  {
    hide RoundUp;
    if PowerOfTwo(a) {
      forall x: nat
        ensures MaskUp(x, a) % a == 0
      {
        MaskIsRound(x, a);
        RoundUpMeaning(x, a);
      }
    } else {
      LowestBit(a);
      assert MaskUp(1, a) == ClearBits(a, a - 1);
      DivUnique(MaskUp(1, a), a, 0, MaskUp(1, a));
    }
  }

  /** With alignment 3 the section after address 1 is put at 1. */
  lemma MaskMisaligns()
    ensures MaskUp(1, 3) == 1 && RoundUp(1, 3) == 3
  {
    assert ClearBits(1, 1) == 0;
    assert ClearBits(3, 2) == 1;
  }

  // ---- the row ----

  /** Each section at the masked end of the one before it. */
  predicate MaskedRow(sections: seq<Section>, addresses: seq<nat>, start: nat, n: nat)
    requires n <= |sections| && n <= |addresses|
  {
    forall i :: 0 <= i < n ==> addresses[i] == MaskUp(PreviousEnd(sections, addresses, start, i), AlignOf(sections[i].align))
  }

  /** The .bss inputs of all objects, one after another. */
  method AssignBSSInputSectionAddresses(sections: seq<Section>, start: nat) returns (addresses: seq<nat>, end: nat)
    ensures |addresses| == |sections| && MaskedRow(sections, addresses, start, |sections|)
    ensures end == PreviousEnd(sections, addresses, start, |sections|)
  {
    hide *;
    addresses, end := [], start;
    NoMaskedRow(start);
    var i := 0;
    while i < |sections|
      invariant 0 <= i <= |sections| && |addresses| == i
      invariant MaskedRow(sections[..i], addresses, start, i) && end == PreviousEnd(sections[..i], addresses, start, i)
    {
      var address := MaskUp(end, AlignOf(sections[i].align));
      MaskedRowExtends(sections[..i], addresses, start, sections[i], address);
      assert sections[..i + 1] == sections[..i] + [sections[i]];
      addresses := addresses + [address];
      end := address + sections[i].size;
      i := i + 1;
    }
    assert sections[..i] == sections;
  }

  lemma NoMaskedRow(start: nat)
    ensures MaskedRow([], [], start, 0) && PreviousEnd([], [], start, 0) == start
  {
  }

  lemma MaskedRowExtends(sections: seq<Section>, addresses: seq<nat>, start: nat, s: Section, address: nat)
    requires |addresses| == |sections| && MaskedRow(sections, addresses, start, |sections|)
    requires address == MaskUp(PreviousEnd(sections, addresses, start, |sections|), AlignOf(s.align))
    ensures var ss, aa := sections + [s], addresses + [address];
            MaskedRow(ss, aa, start, |ss|) && PreviousEnd(ss, aa, start, |ss|) == address + s.size
  {
    hide MaskUp;
    var ss, aa := sections + [s], addresses + [address];
    forall i | 0 <= i < |ss|
      ensures aa[i] == MaskUp(PreviousEnd(ss, aa, start, i), AlignOf(ss[i].align))
    {
      assert PreviousEnd(ss, aa, start, i) == PreviousEnd(sections, addresses, start, i);
    }
  }

  lemma MaskedRowStep(sections: seq<Section>, addresses: seq<nat>, start: nat, j: nat)
    requires |addresses| == |sections| && MaskedRow(sections, addresses, start, |sections|) && j < |sections|
    ensures PreviousEnd(sections, addresses, start, j) <= addresses[j]
  {
  }

  /** They never overlap, whatever alignments they ask for. */
  lemma {:induction false} MaskedRowDisjoint(sections: seq<Section>, addresses: seq<nat>, start: nat, i: nat, j: nat)
    requires |addresses| == |sections| && MaskedRow(sections, addresses, start, |sections|) && i <= j < |sections|
    ensures i < j ==> addresses[i] + sections[i].size <= addresses[j]
    ensures start <= addresses[i] <= addresses[j]
    decreases j
  {
    hide MaskedRow;
    MaskedRowStep(sections, addresses, start, j);
    if j > 0 {
      MaskedRowDisjoint(sections, addresses, start, if i < j then i else j - 1, j - 1);
    }
  }

  /** Each that asks for a power of two begins at its first multiple after the one before it. */
  lemma MaskedRowAligned(sections: seq<Section>, addresses: seq<nat>, start: nat, j: nat)
    requires |addresses| == |sections| && MaskedRow(sections, addresses, start, |sections|) && j < |sections|
    requires PowerOfTwo(AlignOf(sections[j].align))
    ensures addresses[j] == RoundUp(PreviousEnd(sections, addresses, start, j), AlignOf(sections[j].align))
    ensures addresses[j] % AlignOf(sections[j].align) == 0
  {
    hide RoundUp, PowerOfTwo, MaskUp;
    var end, a := PreviousEnd(sections, addresses, start, j), AlignOf(sections[j].align);
    MaskIsRound(end, a);
    RoundUpMeaning(end, a);
  }
}
