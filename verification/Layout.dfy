/**
 Groups of the output: input sections combined with padding between them, so that each begins
 at a multiple of its alignment within its group.  Addresses are unbounded here.
 */
module Layout {
  import opened Words

  // ---- alignment ----

  function RoundUp(x: nat, a: nat): nat
    requires a > 0
  {
    (x + a - 1) / a * a
  }

  lemma RoundUpMeaning(x: nat, a: nat)
    requires a > 0
    ensures RoundUp(x, a) % a == 0 && x <= RoundUp(x, a) < x + a
    ensures x % a == 0 ==> RoundUp(x, a) == x
  {
    DivMod(x + a - 1, a);
    var q := (x + a - 1) / a;
    assert q * a == a * q;
    DivUnique(q * a, a, q, 0);
    if x % a == 0 {
      DivMod(x, a);
      DivUnique(x + a - 1, a, x / a, a - 1);
    }
  }

  ghost predicate PowerOfTwo(a: nat) { exists k :: IsPow2(a, k) }

  predicate IsPow2(a: nat, k: nat) { a == Pow2(k) }

  /** The smaller of two powers of two divides the larger, and what the larger divides. */
  lemma PowersDivide(a: nat, b: nat, x: nat)
    requires PowerOfTwo(a) && PowerOfTwo(b) && a <= b && x % b == 0
    ensures a > 0 && x % a == 0
  {
    var i: nat :| IsPow2(a, i);
    var j: nat :| IsPow2(b, j);
    assert i <= j by {
      if j < i {
        Pow2Next(j);
        Pow2Mono(j + 1, i);
      }
    }
    Pow2Add(i, j - i);
    Factor(x, a, Pow2(j - i));
  }

  lemma Factor(x: nat, a: nat, c: nat)
    requires a > 0 && c > 0 && x % (a * c) == 0
    ensures x % a == 0
  {
    DivDiv(x, a, c);
  }

  lemma SumDivides(x: nat, y: nat, a: nat)
    requires a > 0 && x % a == 0 && y % a == 0
    ensures (x + y) % a == 0
  {
    DivMod(x, a);
    DivMod(y, a);
    assert a * (x / a + y / a) == a * (x / a) + a * (y / a);
    DivUnique(x + y, a, x / a + y / a, 0);
  }

  // ---- groups ----

  /** Made sections are written by the linker; their size may not be known yet when they are placed. */
  datatype Component =
    | Input(align: nat, size: nat, address: nat)
    | Made(reserved: nat, size: nat, address: nat)
    | Padding(size: nat)

  /** tail is the padding to the end of a fixed region, which follows the components. */
  datatype Group = Group(alignment: nat, components: seq<Component>, region: int, address: nat, tail: nat)

  datatype Section = Section(align: nat, size: nat)

  function AlignOf(align: nat): (a: nat)
    ensures a >= 1
  {
    if align > 1 then align else 1
  }

  /** The room a component takes in its region. */
  function RoomOf(c: Component): nat { if c.Made? then c.reserved else c.size }

  /** Where component k begins within its group. */
  function Offset(cs: seq<Component>, k: nat): nat
    requires k <= |cs|
  {
    if k == 0 then 0 else Offset(cs, k - 1) + RoomOf(cs[k - 1])
  }

  /** An input and a padding take their size, a made section what was reserved for it. */
  lemma OffsetAfter(cs: seq<Component>, k: nat)
    requires k < |cs|
    ensures Offset(cs, k + 1) == Offset(cs, k) + match cs[k] case Made(reserved, _, _) => reserved case _ => cs[k].size
    ensures Offset(cs, 0) == 0
  {
  }

  lemma {:induction false} OffsetPrefix(cs: seq<Component>, ds: seq<Component>, k: nat)
    requires k <= |cs| && k <= |ds| && forall i :: 0 <= i < k ==> RoomOf(cs[i]) == RoomOf(ds[i])
    ensures Offset(cs, k) == Offset(ds, k)
  {
    if k > 0 {
      OffsetPrefix(cs, ds, k - 1);
    }
  }

  lemma {:induction false} OffsetMono(cs: seq<Component>, k: nat, l: nat)
    requires k <= l <= |cs|
    ensures Offset(cs, k) <= Offset(cs, l)
    decreases l - k
  {
    if k < l {
      OffsetMono(cs, k, l - 1);
    }
  }

  /** The sections behind the input components, in order. */
  function Inputs(cs: seq<Component>): seq<Section> {
    if cs == [] then []
    else Inputs(cs[..|cs| - 1])
         + (if cs[|cs| - 1].Input? then [Section(cs[|cs| - 1].align, cs[|cs| - 1].size)] else [])
  }

  /** Every input begins at a multiple of its own alignment within the group. */
  predicate OffsetsAligned(cs: seq<Component>) {
    forall k :: 0 <= k < |cs| && cs[k].Input? ==> Offset(cs, k) % AlignOf(cs[k].align) == 0
  }

  /** Padding is there only to align the section after it, and no longer than that takes. */
  predicate PaddingTight(cs: seq<Component>) {
    forall k :: 0 <= k < |cs| && cs[k].Padding? ==>
      k + 1 < |cs| && cs[k + 1].Input? && 0 < cs[k].size < AlignOf(cs[k + 1].align)
  }

  predicate AlignedFor(cs: seq<Component>, alignment: nat) {
    forall k :: 0 <= k < |cs| && cs[k].Input? ==> AlignOf(cs[k].align) <= alignment
  }

  /** A group as BuildSectionGroup leaves it. */
  predicate Built(g: Group) {
    && g.alignment >= 1 && OffsetsAligned(g.components) && AlignedFor(g.components, g.alignment)
    && forall k :: 0 <= k < |g.components| ==> !g.components[k].Made?
  }

  lemma OffsetsExtend(cs: seq<Component>, c: Component)
    requires OffsetsAligned(cs)
    requires c.Input? ==> Offset(cs, |cs|) % AlignOf(c.align) == 0
    ensures OffsetsAligned(cs + [c])
    ensures Offset(cs + [c], |cs| + 1) == Offset(cs, |cs|) + RoomOf(c)
    ensures Inputs(cs + [c]) == Inputs(cs) + (if c.Input? then [Section(c.align, c.size)] else [])
  {
    var ds := cs + [c];
    forall k | 0 <= k <= |cs|
      ensures Offset(ds, k) == Offset(cs, k)
    {
      OffsetPrefix(ds, cs, k);
    }
    assert ds[..|cs|] == cs;
  }

  method StrictestAlignment(sections: seq<Section>) returns (alignment: nat)
    ensures alignment >= 1 && forall i :: 0 <= i < |sections| ==> sections[i].align <= alignment
    ensures alignment == 1 || exists i :: 0 <= i < |sections| && sections[i].align == alignment
  {
    alignment := 1;
    var i := 0;
    while i < |sections|
      invariant 0 <= i <= |sections| && alignment >= 1
      invariant forall j :: 0 <= j < i ==> sections[j].align <= alignment
      invariant alignment == 1 || exists j :: 0 <= j < i && sections[j].align == alignment
    {
      if sections[i].align > alignment {
        alignment := sections[i].align;
      }
      i := i + 1;
    }
  }

  /** The components made of these sections. */
  predicate Combines(cs: seq<Component>, sections: seq<Section>, alignment: nat) {
    && OffsetsAligned(cs) && PaddingTight(cs) && Inputs(cs) == sections && AlignedFor(cs, alignment)
    && forall k :: 0 <= k < |cs| ==> !cs[k].Made?
  }

  /** The padding that puts the next section at a multiple of its alignment, if any is needed. */
  function Gap(cs: seq<Component>, align: nat): seq<Component> {
    RoundUpMeaning(Offset(cs, |cs|), AlignOf(align));
    var gap := RoundUp(Offset(cs, |cs|), AlignOf(align)) - Offset(cs, |cs|);
    if gap == 0 then [] else [Padding(gap)]
  }

  lemma GapAligns(cs: seq<Component>, s: Section)
    requires OffsetsAligned(cs)
    ensures var ds := cs + Gap(cs, s.align);
            && OffsetsAligned(ds) && Inputs(ds) == Inputs(cs)
            && Offset(ds, |ds|) == RoundUp(Offset(cs, |cs|), AlignOf(s.align))
            && Offset(ds, |ds|) % AlignOf(s.align) == 0
  {
    RoundUpMeaning(Offset(cs, |cs|), AlignOf(s.align));
    var gap := Gap(cs, s.align);
    if gap == [] {
      assert cs + gap == cs;
    } else {
      OffsetsExtend(cs, gap[0]);
      assert cs + gap == cs + [gap[0]];
    }
    hide RoundUp;
  }

  lemma TightNext(cs: seq<Component>, gap: seq<Component>, c: Component)
    requires PaddingTight(cs) && c.Input?
    requires gap == [] || (|gap| == 1 && gap[0].Padding? && 0 < gap[0].size < AlignOf(c.align))
    ensures PaddingTight(cs + gap + [c])
  {
    var ds := cs + gap + [c];
    forall k | 0 <= k < |ds| && ds[k].Padding?
      ensures k + 1 < |ds| && ds[k + 1].Input? && 0 < ds[k].size < AlignOf(ds[k + 1].align)
    {
      if k < |cs| {
        assert ds[k] == cs[k] && ds[k + 1] == cs[k + 1];
      }
    }
  }

  lemma KindsNext(cs: seq<Component>, gap: seq<Component>, c: Component, alignment: nat)
    requires AlignedFor(cs, alignment) && c.Input? && AlignOf(c.align) <= alignment
    requires gap == [] || (|gap| == 1 && gap[0].Padding?)
    requires forall k :: 0 <= k < |cs| ==> !cs[k].Made?
    ensures var ds := cs + gap + [c]; AlignedFor(ds, alignment) && forall k :: 0 <= k < |ds| ==> !ds[k].Made?
  {
  }

  lemma CombinesNext(cs: seq<Component>, sections: seq<Section>, s: Section, alignment: nat)
    requires Combines(cs, sections, alignment) && s.align <= alignment && alignment >= 1
    ensures var ds := cs + Gap(cs, s.align);
            && Combines(ds + [Input(s.align, s.size, 0)], sections + [s], alignment)
            && Offset(ds + [Input(s.align, s.size, 0)], |ds| + 1)
               == RoundUp(Offset(cs, |cs|), AlignOf(s.align)) + s.size
  {
    var ds := cs + Gap(cs, s.align);
    var c := Input(s.align, s.size, 0);
    hide OffsetsAligned, PaddingTight, AlignedFor, Offset, Inputs, RoundUp;
    GapAligns(cs, s);
    OffsetsExtend(ds, c);
    RoundUpMeaning(Offset(cs, |cs|), AlignOf(s.align));
    TightNext(cs, Gap(cs, s.align), c);
    KindsNext(cs, Gap(cs, s.align), c, alignment);
  }

  /** The sections of one name combined, in order, with the strictest of their alignments. */
  method BuildSectionGroup(sections: seq<Section>) returns (g: Group)
    ensures Built(g) && Inputs(g.components) == sections && PaddingTight(g.components)
    ensures g.alignment == 1 || exists i :: 0 <= i < |sections| && sections[i].align == g.alignment
    ensures g.region == -1 && g.address == 0 && g.tail == 0
  {
    var alignment := StrictestAlignment(sections);
    var cs: seq<Component> := [];
    var groupOffset := 0;
    var i := 0;
    hide *;
    CombinesNone(alignment);
    assert sections[..0] == [];
    while i < |sections|
      invariant 0 <= i <= |sections| && groupOffset == Offset(cs, |cs|)
      invariant Combines(cs, sections[..i], alignment)
    {
      var s := sections[i];
      CombinesNext(cs, sections[..i], s, alignment);
      var alignedOffset := RoundUp(groupOffset, AlignOf(s.align));
      GapIs(cs, s.align);
      ghost var ds := cs + Gap(cs, s.align);
      if alignedOffset != groupOffset {
        cs := cs + [Padding(alignedOffset - groupOffset)];
        groupOffset := alignedOffset;
      }
      assert cs == ds;
      cs := cs + [Input(s.align, s.size, 0)];
      groupOffset := groupOffset + s.size;
      assert sections[..i + 1] == sections[..i] + [s];
      i := i + 1;
    }
    assert sections[..i] == sections;
    g := Group(alignment, cs, -1, 0, 0);
    CombinesBuilt(cs, sections, alignment);
  }

  lemma CombinesNone(alignment: nat)
    ensures Combines([], [], alignment) && Offset([], 0) == 0
  {
  }

  lemma GapIs(cs: seq<Component>, align: nat)
    ensures var offset, aligned := Offset(cs, |cs|), RoundUp(Offset(cs, |cs|), AlignOf(align));
            aligned >= offset && Gap(cs, align) == if aligned == offset then [] else [Padding(aligned - offset)]
  {
    RoundUpMeaning(Offset(cs, |cs|), AlignOf(align));
  }

  lemma CombinesBuilt(cs: seq<Component>, sections: seq<Section>, alignment: nat)
    requires Combines(cs, sections, alignment) && alignment >= 1
    ensures Built(Group(alignment, cs, -1, 0, 0)) && Inputs(cs) == sections && PaddingTight(cs)
  {
  }

  /** The group and its inputs ask for powers of two. */
  ghost predicate AsksPowers(g: Group) {
    && PowerOfTwo(g.alignment)
    && forall k :: 0 <= k < |g.components| && g.components[k].Input? ==> PowerOfTwo(AlignOf(g.components[k].align))
  }

  lemma {:induction false} InputAmong(cs: seq<Component>, k: nat)
    requires k < |cs| && cs[k].Input?
    ensures Section(cs[k].align, cs[k].size) in Inputs(cs)
  {
    if k < |cs| - 1 {
      InputAmong(cs[..|cs| - 1], k);
    }
  }

  /** A group combined from sections that ask for powers of two asks for powers of two. */
  lemma BuiltAsksPowers(sections: seq<Section>, g: Group)
    requires Inputs(g.components) == sections && (forall s :: s in sections ==> PowerOfTwo(AlignOf(s.align)))
    requires g.alignment == 1 || exists i :: 0 <= i < |sections| && sections[i].align == g.alignment
    requires g.alignment >= 1
    ensures AsksPowers(g)
  {
    assert IsPow2(1, 0);
    if g.alignment > 1 {
      var i :| 0 <= i < |sections| && sections[i].align == g.alignment;
      assert sections[i] in sections;
    }
    hide PowerOfTwo, Inputs;
    forall k | 0 <= k < |g.components| && g.components[k].Input?
      ensures PowerOfTwo(AlignOf(g.components[k].align))
    {
      InputAmong(g.components, k);
    }
  }
}
