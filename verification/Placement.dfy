/**
 Placing the groups of a segment in its memory regions: the running address of each region,
 the alignment of each group's start, and the consecutive addresses of its components.
 */
module Placement {
  import opened Words
  import opened Layout

  /** next is where the region goes on; configEnd is the end of a limited region, or 0. */
  datatype Region = Region(start: nat, next: nat, configEnd: nat, trailingAlign: nat, falign: bool)

  datatype Allocation = Allocation(region: Region, groupAddress: nat, address: nat, ok: bool)

  /** A group's start is aligned together with the region when its first component is placed. */
  function Allocate(r: Region, g: Group, size: nat, last: nat): (a: Allocation)
    ensures a.region == r.(next := a.region.next)
    ensures a.ok && r.configEnd != 0 ==> a.region.next <= r.configEnd
  {
    var next := if r.next == 0 then last else r.next;
    var aligns := next == g.address && g.alignment > 1;
    var start := if aligns then RoundUp(next, g.alignment) else next;
    var groupAddress := if aligns then start else g.address;
    if r.configEnd != 0 && start + size > r.configEnd then Allocation(r.(next := start), groupAddress, 0, false)
    else Allocation(r.(next := start + size), groupAddress, start, true)
  }

  function WithAddress(c: Component, address: nat): Component {
    if c.Padding? then c else c.(address := address)
  }

  /** The components in a row from base on. */
  function PlacedAt(cs: seq<Component>, base: nat): (ds: seq<Component>)
    ensures |ds| == |cs|
    ensures forall k :: 0 <= k < |cs| ==> ds[k] == WithAddress(cs[k], base + Offset(cs, k))
  {
    seq(|cs|, k requires 0 <= k < |cs| => WithAddress(cs[k], base + Offset(cs, k)))
  }

  /** A made section's size is not more than the room it takes. */
  predicate RoomsOk(cs: seq<Component>) {
    forall k :: 0 <= k < |cs| && cs[k].Made? ==> cs[k].size <= cs[k].reserved
  }

  function Aligned(x: nat, alignment: nat): nat { if alignment > 1 then RoundUp(x, alignment) else x }

  lemma AlignedMeaning(x: nat, alignment: nat)
    ensures x <= Aligned(x, alignment) && Aligned(x, alignment) % AlignOf(alignment) == 0
    ensures Aligned(Aligned(x, alignment), alignment) == Aligned(x, alignment)
    ensures x == 0 ==> Aligned(x, alignment) == 0
  {
    if alignment > 1 {
      RoundUpMeaning(x, alignment);
      RoundUpMeaning(RoundUp(x, alignment), alignment);
      if x == 0 {
        RoundUpMeaning(0, alignment);
      }
    }
  }

  /** The size of all components. */
  function Total(cs: seq<Component>): nat { Offset(cs, |cs|) }

  /** A fixed image is filled to its end; the region's next address does not count that padding. */
  function RegionPadding(r: Region): nat {
    if r.configEnd != 0 && !r.falign && r.configEnd > r.next then r.configEnd - r.next else 0
  }

  /** The padding ends exactly where a limited region that is not tied to the file ends. */
  lemma PaddingFills(r: Region)
    ensures r.configEnd != 0 && !r.falign && r.next <= r.configEnd <==>
              r.configEnd != 0 && !r.falign && r.next + RegionPadding(r) == r.configEnd
    ensures r.configEnd == 0 || r.falign ==> RegionPadding(r) == 0
  {
  }

  /** The state of one group's placement after j components: where the region and addr are. */
  predicate Placing(g: Group, cs: seq<Component>, r: Region, addr: nat, before: nat, base: nat, j: nat)
    requires j <= |cs|
  {
    && |g.components| == |cs|
    && (forall k :: 0 <= k < j ==> g.components[k] == WithAddress(cs[k], base + Offset(cs, k)))
    && (forall k :: j <= k < |cs| ==> g.components[k] == cs[k])
    && (if j == 0 then r.next == before && g.address == (if before == 0 then addr else before)
                       && base == Aligned(g.address, g.alignment)
        else g.address == base && r.next == base + Offset(cs, j) && (r.next == 0 ==> addr == 0) && addr >= base
             && (r.configEnd != 0 ==> r.next <= r.configEnd))
  }

  /** Placing one more component keeps the row. */
  lemma PlacingNext(g: Group, cs: seq<Component>, r: Region, addr: nat, before: nat, base: nat, j: nat)
    requires j < |cs| && Placing(g, cs, r, addr, before, base, j) && RoomsOk(cs)
    requires base % AlignOf(g.alignment) == 0 && Aligned(base, g.alignment) == base
    ensures var a := Allocate(r, g, RoomOf(cs[j]), addr);
            var placed := g.(address := a.groupAddress,
                             components := g.components[j := WithAddress(cs[j], a.address)]);
            a.ok ==>
              && a.address == base + Offset(cs, j)
              && Placing(placed, cs, a.region, a.address + cs[j].size, before, base, j + 1)
  {
    hide Offset, RoundUp;
    OffsetStep(cs, j);
  }

  lemma OffsetStep(cs: seq<Component>, j: nat)
    requires j < |cs|
    ensures Offset(cs, j + 1) == Offset(cs, j) + RoomOf(cs[j]) && Offset(cs, 0) == 0
  {
  }

  /** What placing a group did, with the region before and after; addr is used when the region was unused. */
  predicate PlacedGroup(before: Group, after: Group, r: Region, now: Region, addr: nat) {
    && after.components == PlacedAt(before.components, after.address) && after.tail == RegionPadding(now)
    && (before.components == [] ==> now.next == r.next)
    && (before.components != [] ==>
          && after.address == Aligned(if r.next == 0 then addr else r.next, before.alignment)
          && now.next == after.address + Total(before.components)
          && (now.configEnd != 0 ==> now.next <= now.configEnd))
  }

  // ---- the whole segment ----

  /** Group i ends where it says or before, counting from the address it was given. */
  function EndOf(g: Group): nat { g.address + Total(g.components) }

  /** Two groups of one region, the first of which ends before the second begins. */
  predicate Before(g: Group, h: Group) {
    g.region >= 0 && g.region == h.region && g.components != [] && h.components != [] ==> EndOf(g) <= h.address
  }

  /** Earlier groups of a region end before later ones begin. */
  predicate InOrder(groups: seq<Group>, n: nat)
    requires n <= |groups|
  {
    forall i, j :: 0 <= i < j < n ==> Before(groups[i], groups[j])
  }

  /** A placed group ends within its region, if that is limited. */
  predicate Within(groups: seq<Group>, regions: seq<Region>, i: nat)
    requires i < |groups|
  {
    0 <= groups[i].region < |regions| && groups[i].components != [] && regions[groups[i].region].configEnd != 0 ==>
      EndOf(groups[i]) <= regions[groups[i].region].configEnd
  }

  /** The last group before n that is placed in region r, or -1. */
  function LastIn(groups: seq<Group>, r: int, n: nat): (i: int)
    requires n <= |groups|
    ensures -1 <= i < n
    ensures i >= 0 ==> groups[i].region == r && groups[i].components != []
    ensures forall k :: i < k < n ==> groups[k].region != r || groups[k].components == []
  {
    if n == 0 then -1
    else if groups[n - 1].region == r && groups[n - 1].components != [] then n - 1
    else LastIn(groups, r, n - 1)
  }

  /** A group begins at the first multiple of its alignment after the group before it in its region. */
  predicate Tight(groups: seq<Group>, i: nat)
    requires i < |groups|
  {
    groups[i].region >= 0 && groups[i].components != [] ==>
      var k := LastIn(groups, groups[i].region, i);
      k >= 0 && groups[k].address > 0 ==> groups[i].address == Aligned(EndOf(groups[k]), groups[i].alignment)
  }

  /** Every region goes on where its last group ended. */
  predicate GoesOn(groups: seq<Group>, regions: seq<Region>, n: nat)
    requires n <= |groups|
  {
    forall r :: 0 <= r < |regions| ==>
      var k := LastIn(groups, r, n);
      k >= 0 && groups[k].address > 0 ==> regions[r].next == EndOf(groups[k])
  }

  /** A group begins no earlier than its region stood. */
  predicate NotBefore(groups: seq<Group>, regions: seq<Region>, i: nat)
    requires i < |groups|
  {
    0 <= groups[i].region < |regions| && groups[i].components != [] ==>
      regions[groups[i].region].next <= groups[i].address
  }

  /** The region of the first group whose region has a configured start, or -1. */
  function FirstStart(groups: seq<Group>, regions: seq<Region>): (r: int)
    ensures r == -1 || (0 <= r < |regions| && regions[r].start != 0)
  {
    if groups == [] then -1
    else if 0 <= groups[0].region < |regions| && regions[groups[0].region].start != 0 then groups[0].region
    else FirstStart(groups[1..], regions)
  }

  /** Regions that differ only in where they go on, and none goes back. */
  predicate Advanced(before: seq<Region>, after: seq<Region>) {
    && |before| == |after|
    && forall r :: 0 <= r < |before| ==> after[r] == before[r].(next := after[r].next) && before[r].next <= after[r].next
  }

  /** What is known of the places of the groups before n, beyond their order. */
  predicate Settled(groups: seq<Group>, initial: seq<Region>, regions: seq<Region>, n: nat, addr: nat)
    requires n <= |groups|
  {
    && Advanced(initial, regions) && GoesOn(groups, regions, n)
    && (forall k :: 0 <= k < n ==> Within(groups, regions, k) && Tight(groups, k) && NotBefore(groups, initial, k))
    && (addr == 0 ==> AllAtZero(groups, n))
  }

  predicate AllAtZero(groups: seq<Group>, n: nat)
    requires n <= |groups|
  {
    forall k :: 0 <= k < n && groups[k].region >= 0 && groups[k].components != [] ==> groups[k].address == 0
  }

  lemma {:induction false} LastInSame(groups: seq<Group>, groups': seq<Group>, r: int, n: nat)
    requires n <= |groups| && n <= |groups'| && forall k :: 0 <= k < n ==> groups'[k] == groups[k]
    ensures LastIn(groups', r, n) == LastIn(groups, r, n)
  {
    if n > 0 {
      LastInSame(groups, groups', r, n - 1);
    }
  }

  /** Group i is placed in its region, or nothing is placed; addr0 and addr are the ends of what was placed last. */
  predicate OneMore(groups: seq<Group>, groups': seq<Group>, regions: seq<Region>, regions': seq<Region>, i: nat,
                    addr0: nat, addr: nat)
    requires i < |groups|
  {
    && |groups'| == |groups| && (forall k :: 0 <= k < |groups| && k != i ==> groups'[k] == groups[k])
    && Advanced(regions, regions') && groups'[i].region < |regions|
    && (forall r :: 0 <= r < |regions| && r != groups'[i].region ==> regions'[r] == regions[r])
    && (addr == 0 ==> addr0 == 0)
    && (groups'[i].region >= 0 ==>
          var r, now := regions[groups'[i].region], regions'[groups'[i].region];
          if groups'[i].components == [] then addr0 > 0 ==> now == r
          else
            && addr >= groups'[i].address && now.next == EndOf(groups'[i]) && r.next <= groups'[i].address
            && (now.configEnd != 0 ==> now.next <= now.configEnd)
            && (addr0 > 0 && r.next > 0 ==> groups'[i].address == Aligned(r.next, groups'[i].alignment)))
  }

  lemma SettledKept(groups: seq<Group>, groups': seq<Group>, initial: seq<Region>, regions: seq<Region>,
                    regions': seq<Region>, i: nat, addr0: nat, addr: nat, k: nat)
    requires k < i < |groups| && Settled(groups, initial, regions, i, addr0)
    requires OneMore(groups, groups', regions, regions', i, addr0, addr)
    ensures Within(groups', regions', k) && Tight(groups', k) && NotBefore(groups', initial, k)
  {
    assert Within(groups, regions, k) && Tight(groups, k) && NotBefore(groups, initial, k);
    LastInSame(groups, groups', groups[k].region, k);
    hide EndOf, Aligned, LastIn, GoesOn;
  }

  lemma NewIsTight(groups: seq<Group>, groups': seq<Group>, initial: seq<Region>, regions: seq<Region>,
                   regions': seq<Region>, i: nat, addr0: nat, addr: nat)
    requires i < |groups| && Settled(groups, initial, regions, i, addr0)
    requires OneMore(groups, groups', regions, regions', i, addr0, addr)
    ensures Within(groups', regions', i) && Tight(groups', i) && NotBefore(groups', initial, i)
    ensures addr == 0 ==> AllAtZero(groups', i + 1)
  {
    LastInSame(groups, groups', groups'[i].region, i);
    var k := LastIn(groups, groups'[i].region, i);
    if groups'[i].region >= 0 && groups'[i].components != [] && k >= 0 && groups[k].address > 0 {
      assert addr0 > 0;
      EndsLater(groups[k]);
    }
    hide EndOf, Aligned, LastIn, Tight;
  }

  lemma EndsLater(g: Group)
    ensures EndOf(g) >= g.address
  {
  }

  lemma GoesOnNext(groups: seq<Group>, groups': seq<Group>, initial: seq<Region>, regions: seq<Region>,
                   regions': seq<Region>, i: nat, addr0: nat, addr: nat)
    requires i < |groups| && Settled(groups, initial, regions, i, addr0)
    requires OneMore(groups, groups', regions, regions', i, addr0, addr)
    ensures GoesOn(groups', regions', i + 1)
  {
    forall r | 0 <= r < |regions'|
      ensures var k := LastIn(groups', r, i + 1);
              k >= 0 && groups'[k].address > 0 ==> regions'[r].next == EndOf(groups'[k])
    {
      LastInSame(groups, groups', r, i);
      hide EndOf, Aligned, Within, Tight, NotBefore;
    }
  }

  /** One more group is settled. */
  lemma SettledNext(groups: seq<Group>, groups': seq<Group>, initial: seq<Region>, regions: seq<Region>,
                    regions': seq<Region>, i: nat, addr0: nat, addr: nat)
    requires i < |groups| && Settled(groups, initial, regions, i, addr0)
    requires OneMore(groups, groups', regions, regions', i, addr0, addr)
    ensures |groups'| == |groups| && Settled(groups', initial, regions', i + 1, addr)
  {
    NewIsTight(groups, groups', initial, regions, regions', i, addr0, addr);
    GoesOnNext(groups, groups', initial, regions, regions', i, addr0, addr);
    forall k | 0 <= k < i
      ensures Within(groups', regions', k) && Tight(groups', k) && NotBefore(groups', initial, k)
    {
      SettledKept(groups, groups', initial, regions, regions', i, addr0, addr, k);
    }
    hide GoesOn, Within, Tight, NotBefore, EndOf, AllAtZero, Aligned;
    assert Advanced(initial, regions') by { AdvancedTwice(initial, regions, regions'); }
  }

  lemma AdvancedTwice(a: seq<Region>, b: seq<Region>, c: seq<Region>)
    requires Advanced(a, b) && Advanced(b, c)
    ensures Advanced(a, c)
  {
  }

  /** Every placed group ends before its region goes on. */
  predicate BehindNext(groups: seq<Group>, regions: seq<Region>, n: nat)
    requires n <= |groups|
  {
    forall i :: 0 <= i < n && 0 <= groups[i].region < |regions| && groups[i].components != [] ==>
      EndOf(groups[i]) <= regions[groups[i].region].next
  }

  /** What became of a group: its components in a row from an address aligned for it. */
  predicate Laid(before: Group, after: Group) {
    && after.region == before.region && before.alignment <= after.alignment
    && (before.region >= 0 ==>
          && after.components == PlacedAt(before.components, after.address)
          && (before.components != [] ==> after.address % AlignOf(after.alignment) == 0))
  }

  predicate HasAlignment(groups: seq<Group>, alignment: nat) {
    exists j :: 0 <= j < |groups| && groups[j].alignment == alignment
  }

  predicate RegionsOk(groups: seq<Group>, regions: seq<Region>) {
    forall i :: 0 <= i < |groups| ==> groups[i].region < |regions| && RoomsOk(groups[i].components)
  }

  class Segment {
    var groups: seq<Group>
    var regions: seq<Region>
    var errors: nat

    constructor (groups: seq<Group>, regions: seq<Region>)
      ensures this.groups == groups && this.regions == regions && errors == 0
    {
      this.groups, this.regions, errors := groups, regions, 0;
    }

    predicate InRegion(g: nat)
      reads this
    {
      g < |groups| && 0 <= groups[g].region < |regions|
    }

    /** A section that does not fit is reported and gets address 0. */
    method RegionAllocateAddress(g: nat, size: nat, last: nat) returns (address: nat)
      requires InRegion(g)
      modifies this
      ensures var r, a := old(groups[g].region), Allocate(old(regions[groups[g].region]), old(groups[g]), size, last);
              && address == a.address && regions == old(regions)[r := a.region]
              && groups == old(groups)[g := old(groups[g]).(address := a.groupAddress)]
              && errors == old(errors) + (if a.ok then 0 else 1)
      ensures var r, group := old(regions[groups[g].region]), old(groups[g]);
              var next := if r.next == 0 then last else r.next;
              var start := if next == group.address then Aligned(next, group.alignment) else next;
              && (errors > old(errors) <==> r.configEnd != 0 && start + size > r.configEnd)
              && address == if errors > old(errors) then 0 else start
    {
      hide RoundUp;
      var r := groups[g].region;
      if regions[r].next == 0 {
        regions := regions[r := regions[r].(next := last)];
      }
      if regions[r].next == groups[g].address && groups[g].alignment > 1 {
        regions := regions[r := regions[r].(next := RoundUp(regions[r].next, groups[g].alignment))];
        groups := groups[g := groups[g].(address := regions[r].next)];
      }
      if regions[r].configEnd != 0 {
        var next := regions[r].next + size;
        if next > regions[r].configEnd {
          errors := errors + 1;
          return 0;
        }
      }
      address := regions[r].next;
      regions := regions[r := regions[r].(next := address + size)];
    }

    /** Component j of group g gets the next address; addr is where it ends. */
    method PlaceComponent(g: nat, j: nat, last: nat) returns (addr: nat)
      requires InRegion(g) && j < |groups[g].components|
      modifies this
      ensures var r, group := old(groups[g].region), old(groups[g]);
              var c := group.components[j];
              var a := Allocate(old(regions[groups[g].region]), group, RoomOf(c), last);
              && addr == a.address + c.size && regions == old(regions)[r := a.region]
              && groups == old(groups)[g := group.(address := a.groupAddress,
                                                   components := group.components[j := WithAddress(c, a.address)])]
              && errors == old(errors) + (if a.ok then 0 else 1)
    {
      hide Allocate;
      var c := groups[g].components[j];
      var address := RegionAllocateAddress(g, RoomOf(c), last);
      var group := groups[g];
      groups := groups[g := group.(components := group.components[j := WithAddress(c, address)])];
      addr := address + c.size;
    }

    /** One group, when no component is refused: its start is aligned and its components are in a row. */
    method PlaceGroup(g: nat, addr0: nat, lastEnd: nat) returns (addr: nat)
      requires InRegion(g) && RoomsOk(groups[g].components)
      modifies this
      ensures |groups| == old(|groups|) && |regions| == old(|regions|) && errors >= old(errors)
      ensures forall i :: 0 <= i < |groups| && i != g ==> groups[i] == old(groups[i])
      ensures forall i :: 0 <= i < |regions| && i != old(groups[g].region) ==> regions[i] == old(regions[i])
      ensures groups[g].region == old(groups[g].region) && groups[g].alignment == old(groups[g].alignment)
      ensures RoomsOk(groups[g].components)
      ensures errors == old(errors) && (addr0 == 0 ==> lastEnd == 0) ==>
                PlacedGroup(old(groups[g]), groups[g], old(regions[groups[g].region]), regions[groups[g].region], addr0)
      ensures errors == old(errors) && (addr0 == 0 ==> lastEnd == 0) && addr == 0 ==> lastEnd == 0 && addr0 == 0
      ensures errors == old(errors) && (addr0 == 0 ==> lastEnd == 0) && groups[g].components != [] ==>
                addr >= groups[g].address
      ensures regions[groups[g].region] == old(regions[groups[g].region]).(next := regions[groups[g].region].next)
    {
      hide Offset, RoundUp, Aligned, Allocate, AlignOf, Placing, PlacedGroup, RoomsOk, RegionPadding, PlacedAt;
      var r := groups[g].region;
      var start := if regions[r].next == 0 then (if addr0 != 0 then addr0 else lastEnd) else regions[r].next;
      groups := groups[g := groups[g].(address := start)];
      ghost var clean, cs, before := (addr0 == 0 ==> lastEnd == 0), groups[g].components, regions[r].next;
      ghost var base := Aligned(start, groups[g].alignment);
      PlacingStarts(groups[g], regions[r], addr0, base);
      ghost var errors0 := errors;
      addr := PlaceComponents(g, addr0, clean, before, base);
      var padding := RegionPadding(regions[r]);
      groups := groups[g := groups[g].(tail := padding)];
      if clean && errors == errors0 {
        PlacingEnds(old(groups[g]), groups[g], cs, old(regions[r]), regions[r], addr0, addr, base);
      }
      addr := addr + padding;
    }

    /** The components of a group, one after another. */
    method PlaceComponents(g: nat, addr0: nat, ghost clean: bool, ghost before: nat, ghost base: nat) returns (addr: nat)
      requires InRegion(g) && RoomsOk(groups[g].components)
      requires base % AlignOf(groups[g].alignment) == 0 && Aligned(base, groups[g].alignment) == base
      requires clean ==> Placing(groups[g], groups[g].components, regions[groups[g].region], addr0, before, base, 0)
      modifies this
      ensures |groups| == old(|groups|) && |regions| == old(|regions|) && errors >= old(errors)
      ensures forall i :: 0 <= i < |groups| && i != g ==> groups[i] == old(groups[i])
      ensures forall i :: 0 <= i < |regions| && i != old(groups[g].region) ==> regions[i] == old(regions[i])
      ensures groups[g] == old(groups[g]).(address := groups[g].address, components := groups[g].components)
      ensures RoomsOk(groups[g].components)
      ensures old(groups[g].components) == [] ==> addr == addr0
      ensures regions[groups[g].region] == old(regions[groups[g].region]).(next := regions[groups[g].region].next)
      ensures clean && errors == old(errors) ==>
                Placing(groups[g], old(groups[g].components), regions[groups[g].region], addr, before, base,
                        |old(groups[g].components)|)
    {
      hide Offset, RoundUp, Aligned, Allocate, AlignOf;
      var r := groups[g].region;
      addr := addr0;
      ghost var cs := groups[g].components;
      var j := 0;
      while j < |groups[g].components|
        invariant |groups| == old(|groups|) && |regions| == old(|regions|) && errors >= old(errors) && 0 <= j <= |cs|
        invariant forall i :: 0 <= i < |groups| && i != g ==> groups[i] == old(groups[i])
        invariant forall i :: 0 <= i < |regions| && i != r ==> regions[i] == old(regions[i])
        invariant groups[g] == old(groups[g]).(address := groups[g].address, components := groups[g].components)
        invariant regions[r] == old(regions[r]).(next := regions[r].next)
        invariant |groups[g].components| == |cs| && RoomsOk(groups[g].components) && (j == 0 ==> addr == addr0)
        invariant clean && errors == old(errors) ==> Placing(groups[g], cs, regions[r], addr, before, base, j)
      {
        PlacingStep(groups[g], cs, regions[r], addr, before, base, j, clean && errors == old(errors));
        hide Placing;
        addr := PlaceComponent(g, j, addr);
        j := j + 1;
      }
    }

    lemma PlacingStarts(g: Group, r: Region, addr: nat, base: nat)
      requires base == Aligned(g.address, g.alignment)
      ensures base % AlignOf(g.alignment) == 0 && Aligned(base, g.alignment) == base
      ensures g.address == (if r.next == 0 then addr else r.next) ==> Placing(g, g.components, r, addr, r.next, base, 0)
    {
      AlignedMeaning(g.address, g.alignment);
      hide Aligned;
    }

    lemma PlacingEnds(old0: Group, g: Group, cs: seq<Component>, r: Region, now: Region, addr0: nat, addr: nat, base: nat)
      requires old0.components == cs && g.tail == RegionPadding(now)
      requires Placing(g.(tail := old0.tail), cs, now, addr, r.next, base, |cs|)
      requires base == Aligned(if r.next == 0 then addr0 else r.next, old0.alignment)
      ensures PlacedGroup(old0, g, r, now, addr0)
      ensures cs != [] && addr == 0 ==> addr0 == 0
      ensures g.components != [] ==> addr >= g.address
    {
      AlignedMeaning(if r.next == 0 then addr0 else r.next, old0.alignment);
      RowIsPlaced(g.components, cs, base);
      hide Aligned, Offset, RegionPadding, PlacedAt, AlignOf;
    }

    lemma RowIsPlaced(ds: seq<Component>, cs: seq<Component>, base: nat)
      requires |ds| == |cs|
      ensures (forall k :: 0 <= k < |cs| ==> ds[k] == WithAddress(cs[k], base + Offset(cs, k))) ==> ds == PlacedAt(cs, base)
    {
      hide Offset, WithAddress;
    }

    lemma PlacingStep(g: Group, cs: seq<Component>, r: Region, addr: nat, before: nat, base: nat, j: nat, clean: bool)
      requires clean ==> j < |cs| && Placing(g, cs, r, addr, before, base, j) && RoomsOk(cs)
      requires base % AlignOf(g.alignment) == 0 && Aligned(base, g.alignment) == base
      ensures clean ==>
                var a := Allocate(r, g, RoomOf(cs[j]), addr);
                var placed := g.(address := a.groupAddress,
                                 components := g.components[j := WithAddress(cs[j], a.address)]);
                g.components[j] == cs[j]
                && (a.ok ==> Placing(placed, cs, a.region, a.address + cs[j].size, before, base, j + 1))
    {
      if clean {
        PlacingNext(g, cs, r, addr, before, base, j);
      }
    }

    /** The first group that is placed gets the strictest alignment of all of them. */
    method RaiseFirstAlignment()
      requires RegionsOk(groups, regions) && forall i :: 0 <= i < |groups| ==> groups[i].alignment >= 1
      modifies this`groups
      ensures |groups| == old(|groups|) && RegionsOk(groups, regions)
      ensures forall i :: 0 <= i < |groups| ==>
                groups[i] == old(groups[i]) ||
                (groups[i] == old(groups[i]).(alignment := groups[i].alignment)
                 && groups[i].alignment > old(groups[i]).alignment
                 && exists j :: 0 <= j < |groups| && old(groups)[j].alignment == groups[i].alignment)
    {
      var first := -1;
      var strictest := 1;
      var i := 0;
      while i < |groups|
        invariant 0 <= i <= |groups| && -1 <= first < i && groups == old(groups)
        invariant strictest == 1 || exists j :: 0 <= j < |groups| && groups[j].alignment == strictest
        invariant first == -1 ==> strictest == 1
        invariant first >= 0 ==> groups[first].alignment <= strictest
      {
        if groups[i].region >= 0 {
          if first == -1 {
            first := i;
          }
          if groups[i].alignment > strictest {
            strictest := groups[i].alignment;
          }
        }
        i := i + 1;
      }
      if first != -1 && groups[first].alignment < strictest {
        groups := groups[first := groups[first].(alignment := strictest)];
      }
    }

    /** The start of a region, moved on by the file offset when it must agree with it. */
    method AlignedStartAddress(r: nat, fileOffset: nat) returns (start: nat)
      requires r < |regions|
      modifies this`regions
      ensures |regions| == old(|regions|)
      ensures forall i :: 0 <= i < |regions| ==>
                regions[i] == if i == r then old(regions[r]).(next := regions[r].next) else old(regions[i])
      ensures regions[r].next == old(regions[r].next) + (if regions[r].falign then fileOffset else 0)
      ensures start == regions[r].start + (if regions[r].falign then fileOffset else 0)
    {
      start := regions[r].start;
      if regions[r].falign {
        start := start + fileOffset;
        regions := regions[r := regions[r].(next := regions[r].next + fileOffset)];
      }
    }

    /** The start configured for a group's region, if the segment does not begin at the front of memory. */
    method ConfiguredStart(lastEnd: nat, fileOffset: nat) returns (addr: nat)
      requires RegionsOk(groups, regions)
      modifies this`regions
      ensures |regions| == old(|regions|) && RegionsOk(groups, regions)
      ensures lastEnd == 0 <==> addr == 0
      ensures Advanced(old(regions), regions)
      ensures var first := FirstStart(groups, old(regions));
              addr == if lastEnd == 0 || first == -1 then lastEnd
                      else old(regions)[first].start + (if old(regions)[first].falign then fileOffset else 0)
    {
      addr := lastEnd;
      if addr == 0 {
        return;
      }
      var i := 0;
      while i < |groups|
        invariant 0 <= i <= |groups| && regions == old(regions) && addr == lastEnd
        invariant FirstStart(groups, regions) == FirstStart(groups[i..], regions)
      {
        if groups[i].region >= 0 && regions[groups[i].region].start != 0 {
          addr := AlignedStartAddress(groups[i].region, fileOffset);
          return;
        }
        i := i + 1;
      }
    }

    /** A region asked to end at a multiple goes on from there. */
    method AlignRegionEnds()
      modifies this`regions
      ensures |regions| == old(|regions|)
      ensures forall i :: 0 <= i < |regions| ==>
                regions[i] == old(regions[i]).(next := Aligned(old(regions[i].next), old(regions[i].trailingAlign)))
    {
      var i := 0;
      while i < |regions|
        invariant 0 <= i <= |regions| && |regions| == old(|regions|)
        invariant forall k :: 0 <= k < i ==>
                    regions[k] == old(regions[k]).(next := Aligned(old(regions[k].next), old(regions[k].trailingAlign)))
        invariant forall k :: i <= k < |regions| ==> regions[k] == old(regions[k])
      {
        if regions[i].trailingAlign > 1 {
          regions := regions[i := regions[i].(next := RoundUp(regions[i].next, regions[i].trailingAlign))];
        }
        i := i + 1;
      }
    }

    /** What is known after the groups before i, if nothing was refused. */
    ghost predicate Progress(raised: seq<Group>, initial: seq<Region>, i: nat, addr: nat)
      reads this
    {
      && |groups| == |raised| && i <= |groups|
      && InOrder(groups, i) && BehindNext(groups, regions, i)
      && Settled(groups, initial, regions, i, addr)
      && forall k :: 0 <= k < i ==> Laid(raised[k], groups[k]) && groups[k].alignment == raised[k].alignment
    }

    /** One more group; addr is the end of what was placed last. */
    method PlaceNext(i: nat, addr0: nat, lastEnd: nat, fileOffset: nat, ghost raised: seq<Group>,
                     ghost initial: seq<Region>, ghost clean: bool)
      returns (addr: nat)
      requires RegionsOk(groups, regions) && i < |groups| == |raised|
      requires forall k :: i <= k < |groups| ==> groups[k] == raised[k]
      requires clean ==> Progress(raised, initial, i, addr0) && (addr0 == 0 ==> lastEnd == 0)
      modifies this
      ensures |groups| == old(|groups|) && RegionsOk(groups, regions) && errors >= old(errors)
      ensures forall k :: i < k < |groups| ==> groups[k] == raised[k]
      ensures clean && errors == old(errors) ==> Progress(raised, initial, i + 1, addr) && (addr == 0 ==> lastEnd == 0)
    {
      hide Laid, PlacedGroup, EndOf, RoomsOk, Before, Settled, OneMore;
      addr := addr0;
      ghost var groups0, regions0 := groups, regions;
      var r := groups[i].region;
      if r < 0 {
        NotPlaced(raised[i]);
        if clean {
          NoneMore(groups, regions, i, addr);
          SettledNext(groups, groups, initial, regions, regions, i, addr, addr);
        }
        ProgressNext(raised, groups0, groups, regions0, regions, i, clean);
        return;
      }
      if addr == 0 {
        addr := AlignedStartAddress(r, fileOffset);
      }
      ghost var started, from := regions, addr;
      addr := PlaceGroup(i, addr, lastEnd);
      if clean && errors == old(errors) {
        PlacedIsLaid(raised[i], groups[i], started[r], regions[r], from);
        PlacedIsOneMore(raised[i], groups0, groups, regions0, started, regions, i, addr0, from, addr);
        SettledNext(groups0, groups, initial, regions0, regions, i, addr0, addr);
        ProgressNext(raised, groups0, groups, regions0, regions, i, clean);
      }
    }

    lemma NoneMore(groups: seq<Group>, regions: seq<Region>, i: nat, addr: nat)
      requires i < |groups| && groups[i].region < 0
      ensures OneMore(groups, groups, regions, regions, i, addr, addr)
    {
    }

    lemma PlacedIsOneMore(before: Group, groups0: seq<Group>, groups1: seq<Group>, regions0: seq<Region>,
                          started: seq<Region>, regions1: seq<Region>, i: nat, addr0: nat, from: nat, addr: nat)
      requires i < |groups0| == |groups1| && |regions0| == |started| == |regions1|
      requires forall k :: 0 <= k < |groups0| && k != i ==> groups1[k] == groups0[k]
      requires groups0[i] == before && 0 <= before.region < |regions0|
      requires groups1[i].region == before.region && groups1[i].alignment == before.alignment
      requires PlacedGroup(before, groups1[i], started[before.region], regions1[before.region], from)
      requires forall r :: 0 <= r < |regions0| && r != before.region ==> regions1[r] == started[r] == regions0[r]
      requires regions1[before.region] == started[before.region].(next := regions1[before.region].next)
      requires started[before.region] == regions0[before.region].(next := started[before.region].next)
      requires started[before.region].next >= regions0[before.region].next
      requires addr0 > 0 ==> started == regions0 && from == addr0
      requires addr == 0 ==> from == 0
      requires groups1[i].components != [] ==> addr >= groups1[i].address
      ensures OneMore(groups0, groups1, regions0, regions1, i, addr0, addr)
    {
      PlacedIsLaid(before, groups1[i], started[before.region], regions1[before.region], from);
      PlacedEnds(before, groups1[i], started[before.region], regions1[before.region], from);
      hide EndOf, Aligned, Laid, PlacedAt, Total;
    }

    lemma PlacedEnds(before: Group, after: Group, r: Region, now: Region, addr: nat)
      requires PlacedGroup(before, after, r, now, addr)
      ensures after.components != [] ==> now.next == EndOf(after)
      ensures after.components == [] <==> before.components == []
    {
      forall k | 0 <= k < |before.components|
        ensures RoomOf(after.components[k]) == RoomOf(before.components[k])
      {
      }
      OffsetPrefix(after.components, before.components, |before.components|);
    }

    lemma NotPlaced(g: Group)
      requires g.region < 0
      ensures Laid(g, g)
    {
    }

    /** The facts about all groups before i + 1 follow from those before i and those about group i. */
    lemma ProgressNext(raised: seq<Group>, groups0: seq<Group>, groups1: seq<Group>, regions0: seq<Region>,
                       regions1: seq<Region>, i: nat, clean: bool)
      requires clean ==> i < |groups0| == |groups1| == |raised| && |regions0| == |regions1|
      requires clean ==> InOrder(groups0, i) && BehindNext(groups0, regions0, i)
      requires clean ==> forall k :: 0 <= k < i ==> Laid(raised[k], groups0[k]) && groups0[k].alignment == raised[k].alignment
      requires clean ==> forall k :: 0 <= k < |groups0| && k != i ==> groups1[k] == groups0[k]
      requires clean ==> Laid(raised[i], groups1[i]) && groups1[i].alignment == raised[i].alignment
      requires clean ==> groups1[i].region == raised[i].region < |regions0|
      requires clean ==> forall k :: 0 <= k < |regions0| ==> regions0[k].next <= regions1[k].next
      requires clean && groups1[i].region >= 0 && groups1[i].components != [] ==>
                 regions0[groups1[i].region].next <= groups1[i].address
                 && EndOf(groups1[i]) <= regions1[groups1[i].region].next
      ensures clean ==> InOrder(groups1, i + 1) && BehindNext(groups1, regions1, i + 1)
      ensures clean ==> forall k :: 0 <= k < i + 1 ==> Laid(raised[k], groups1[k]) && groups1[k].alignment == raised[k].alignment
    {
      hide Laid, EndOf;
      if clean {
        forall k, l | 0 <= k < l < i + 1
          ensures Before(groups1[k], groups1[l])
        {
          if l < i {
            assert Before(groups0[k], groups0[l]);
          }
        }
      }
    }

    lemma PlacedIsLaid(before: Group, after: Group, r: Region, now: Region, addr: nat)
      requires PlacedGroup(before, after, r, now, addr) && after.region == before.region
      requires after.alignment == before.alignment
      ensures Laid(before, after) && r.next <= now.next
      ensures after.components != [] ==> r.next <= after.address && EndOf(after) <= now.next
    {
      AlignedMeaning(if r.next == 0 then addr else r.next, before.alignment);
      hide Aligned;
      forall k | 0 <= k < |before.components|
        ensures RoomOf(after.components[k]) == RoomOf(before.components[k])
      {
      }
      OffsetPrefix(after.components, before.components, |before.components|);
    }

    /** All groups of the segment, when nothing is refused. */
    method AssignSegmentSectionAddresses(lastEnd: nat, fileOffset: nat)
      requires RegionsOk(groups, regions) && forall i :: 0 <= i < |groups| ==> groups[i].alignment >= 1
      modifies this
      ensures |groups| == old(|groups|)
      ensures errors == old(errors) ==> InOrder(groups, |groups|)
      ensures errors == old(errors) ==> forall i :: 0 <= i < |groups| ==> Laid(old(groups[i]), groups[i])
      ensures errors == old(errors) ==> forall i :: 0 <= i < |groups| ==>
                HasAlignment(old(groups), groups[i].alignment)
      ensures errors == old(errors) ==> forall i :: 0 <= i < |groups| ==>
                Within(groups, old(regions), i) && NotBefore(groups, old(regions), i) && Tight(groups, i)
      ensures errors == old(errors) && (forall i :: 0 <= i < |groups| ==> Built(old(groups)[i]) && AsksPowers(old(groups)[i])) ==>
                AllAligned(old(groups), groups) && AllDisjoint(old(groups), groups)
    {
      hide *;
      RaiseFirstAlignment();
      ghost var raised := groups;
      var addr := ConfiguredStart(lastEnd, fileOffset);
      NothingYet(old(regions), addr);
      var i := 0;
      while i < |groups|
        invariant 0 <= i <= |groups| == |raised| && errors >= old(errors) && RegionsOk(groups, regions)
        invariant forall k :: i <= k < |groups| ==> groups[k] == raised[k]
        invariant errors == old(errors) ==> Progress(raised, old(regions), i, addr) && (addr == 0 ==> lastEnd == 0)
      {
        addr := PlaceNext(i, addr, lastEnd, fileOffset, raised, old(regions), errors == old(errors));
        i := i + 1;
      }
      if errors == old(errors) {
        AllLaid(old(groups), raised, old(regions), addr);
        if forall i :: 0 <= i < |groups| ==> Built(old(groups)[i]) && AsksPowers(old(groups)[i]) {
          InputsWellPlaced(old(groups), groups);
        }
      }
      AlignRegionEnds();
    }

    lemma NothingYet(initial: seq<Region>, addr: nat)
      requires Advanced(initial, regions)
      ensures Progress(groups, initial, 0, addr)
    {
    }

    lemma AllLaid(before: seq<Group>, raised: seq<Group>, initial: seq<Region>, addr: nat)
      requires |before| == |raised| == |groups| && Progress(raised, initial, |groups|, addr)
      requires forall i :: 0 <= i < |before| ==>
                 raised[i] == before[i] ||
                 (raised[i] == before[i].(alignment := raised[i].alignment) && raised[i].alignment > before[i].alignment
                  && exists j :: 0 <= j < |before| && before[j].alignment == raised[i].alignment)
      ensures InOrder(groups, |groups|)
      ensures forall i :: 0 <= i < |groups| ==> Laid(before[i], groups[i])
      ensures forall i :: 0 <= i < |groups| ==> HasAlignment(before, groups[i].alignment)
      ensures forall i :: 0 <= i < |groups| ==>
                Within(groups, initial, i) && NotBefore(groups, initial, i) && Tight(groups, i)
    {
      hide EndOf, PlacedAt, Before, Tight, LastIn, GoesOn;
      forall i | 0 <= i < |groups|
        ensures Within(groups, initial, i) && NotBefore(groups, initial, i) && Tight(groups, i)
      {
        assert Within(groups, regions, i) && NotBefore(groups, initial, i) && Tight(groups, i);
      }
      forall i | 0 <= i < |groups|
        ensures Laid(before[i], groups[i])
      {
        assert Laid(raised[i], groups[i]);
      }
      forall i | 0 <= i < |groups|
        ensures HasAlignment(before, groups[i].alignment)
      {
        assert Laid(raised[i], groups[i]);
        assert raised[i] == before[i] ==> before[i].alignment == groups[i].alignment;
      }
    }
  }

  // ---- what it means for the input sections ----

  lemma InputPlaced(before: Group, after: Group, k: nat)
    requires Laid(before, after) && before.region >= 0 && k < |before.components| && before.components[k].Input?
    ensures |after.components| == |before.components|
    ensures after.components[k] == WithAddress(before.components[k], after.address + Offset(before.components, k))
    ensures after.components[k].Input? && after.components[k].address == after.address + Offset(before.components, k)
    ensures after.components[k].align == before.components[k].align && after.components[k].size == before.components[k].size
    ensures after.address % AlignOf(after.alignment) == 0
  {
    hide Offset, AlignOf;
  }

  lemma BuiltFacts(g: Group, k: nat)
    requires Built(g) && k < |g.components| && g.components[k].Input?
    ensures Offset(g.components, k) % AlignOf(g.components[k].align) == 0 && AlignOf(g.components[k].align) <= g.alignment
  {
  }

  /** Every input section of a built group gets a multiple of its own alignment. */
  lemma InputsAligned(before: Group, after: Group, k: nat)
    requires Built(before) && Laid(before, after) && before.region >= 0 && PowerOfTwo(AlignOf(after.alignment))
    requires k < |before.components| && before.components[k].Input? && PowerOfTwo(AlignOf(before.components[k].align))
    ensures k < |after.components| && after.components[k].Input?
    ensures after.components[k].address % AlignOf(before.components[k].align) == 0
    ensures after.components[k].align == before.components[k].align && after.components[k].size == before.components[k].size
  {
    hide *;
    var a, offset := AlignOf(before.components[k].align), Offset(before.components, k);
    InputPlaced(before, after, k);
    BuiltFacts(before, k);
    AlignmentGrows(before, after);
    SumAligned(after.address, offset, a, AlignOf(after.alignment));
  }

  lemma AlignmentGrows(before: Group, after: Group)
    requires Laid(before, after)
    ensures before.alignment <= AlignOf(after.alignment)
  {
  }

  lemma SumAligned(x: nat, y: nat, a: nat, b: nat)
    requires PowerOfTwo(a) && PowerOfTwo(b) && a <= b && b > 0 && a > 0 && x % b == 0 && y % a == 0
    ensures (x + y) % a == 0
  {
    PowersDivide(a, b, x);
    SumDivides(x, y, a);
  }

  /** Where component k of a placed group begins and ends. */
  lemma WithinGroup(before: Group, after: Group, k: nat)
    requires Laid(before, after) && before.region >= 0 && k < |before.components| && before.components[k].Input?
    ensures |after.components| == |before.components|
    ensures after.components[k].Input? && after.address <= after.components[k].address
    ensures after.components[k].address + after.components[k].size <= EndOf(after)
    ensures after.components[k].address == after.address + Offset(before.components, k)
  {
    var cs := before.components;
    InputPlaced(before, after, k);
    SameRooms(before, after);
    OffsetMono(cs, k + 1, |cs|);
    OffsetStep(cs, k);
    hide Laid, Offset;
  }

  lemma SameRooms(before: Group, after: Group)
    requires Laid(before, after) && before.region >= 0
    ensures EndOf(after) == after.address + Total(before.components)
  {
    var cs := before.components;
    forall i | 0 <= i < |cs|
      ensures RoomOf(after.components[i]) == RoomOf(cs[i])
    {
    }
    OffsetPrefix(after.components, cs, |cs|);
    hide Offset;
  }

  /** Two input sections of one region, in groups i <= j, never overlap. */
  lemma InputsDisjoint(before: seq<Group>, after: seq<Group>, i: nat, k: nat, j: nat, l: nat)
    requires |before| == |after| && InOrder(after, |after|) && i <= j < |after| && (i == j ==> k < l)
    requires forall g :: 0 <= g < |after| ==> Laid(before[g], after[g])
    requires before[i].region >= 0 && before[i].region == before[j].region
    requires k < |before[i].components| && before[i].components[k].Input?
    requires l < |before[j].components| && before[j].components[l].Input?
    ensures k < |after[i].components| && l < |after[j].components|
    ensures after[i].components[k].Input? && after[j].components[l].Input?
    ensures after[i].components[k].address + after[i].components[k].size <= after[j].components[l].address
  {
    WithinGroup(before[i], after[i], k);
    WithinGroup(before[j], after[j], l);
    assert i < j ==> Before(after[i], after[j]);
    assert after[i].region == before[i].region && after[j].region == before[j].region;
    OffsetStep(before[i].components, k);
    hide Laid, Offset, EndOf, InOrder;
    if i < j {
      assert Before(after[i], after[j]);
    } else {
      OffsetMono(before[i].components, k + 1, l);
    }
  }

  /** Component k of group g is an input that is placed. */
  predicate PlacedInput(groups: seq<Group>, g: nat, k: nat) {
    g < |groups| && groups[g].region >= 0 && k < |groups[g].components| && groups[g].components[k].Input?
  }

  /** Every input has an address that is a multiple of its own alignment. */
  ghost predicate AllAligned(before: seq<Group>, after: seq<Group>) {
    forall g: nat, k: nat | PlacedInput(before, g, k) ::
      PlacedInput(after, g, k) && after[g].components[k].address % AlignOf(before[g].components[k].align) == 0
  }

  /** Inputs of one region do not overlap: those of earlier groups, and those earlier in a group, come before. */
  ghost predicate AllDisjoint(before: seq<Group>, after: seq<Group>) {
    forall i: nat, k: nat, j: nat, l: nat | PlacedInput(before, i, k) && PlacedInput(before, j, l) :: Separate(before, after, i, k, j, l)
  }

  predicate Separate(before: seq<Group>, after: seq<Group>, i: nat, k: nat, j: nat, l: nat)
    requires PlacedInput(before, i, k) && PlacedInput(before, j, l)
  {
    (i < j || (i == j && k < l)) && before[i].region == before[j].region ==>
      && PlacedInput(after, i, k) && PlacedInput(after, j, l)
      && after[i].components[k].address + before[i].components[k].size <= after[j].components[l].address
  }

  /** Groups that were built, ask for powers of two and were laid out without an error: the main result. */
  lemma InputsWellPlaced(before: seq<Group>, after: seq<Group>)
    requires |before| == |after| && InOrder(after, |after|)
    requires forall g :: 0 <= g < |before| ==> Built(before[g]) && AsksPowers(before[g]) && Laid(before[g], after[g])
    requires forall g :: 0 <= g < |after| ==> HasAlignment(before, after[g].alignment)
    ensures AllAligned(before, after) && AllDisjoint(before, after)
  {
    forall g: nat, k: nat | PlacedInput(before, g, k)
      ensures PlacedInput(after, g, k) && after[g].components[k].address % AlignOf(before[g].components[k].align) == 0
    {
      AskedPower(before, after[g].alignment);
      AsksOf(before[g], k);
      RegionKept(before[g], after[g]);
      hide Built, Laid, AsksPowers;
      InputsAligned(before[g], after[g], k);
    }
    forall i: nat, k: nat, j: nat, l: nat | PlacedInput(before, i, k) && PlacedInput(before, j, l)
      ensures Separate(before, after, i, k, j, l)
    {
      RegionKept(before[i], after[i]);
      RegionKept(before[j], after[j]);
      InputKept(before[i], after[i], k);
      hide Built, Laid, AsksPowers, InOrder;
      if (i < j || (i == j && k < l)) && before[i].region == before[j].region {
        InputsDisjoint(before, after, i, k, j, l);
      }
    }
  }

  lemma AskedPower(before: seq<Group>, alignment: nat)
    requires HasAlignment(before, alignment) && forall g :: 0 <= g < |before| ==> AsksPowers(before[g])
    ensures PowerOfTwo(AlignOf(alignment))
  {
    assert IsPow2(1, 0);
    hide PowerOfTwo;
  }

  lemma AsksOf(g: Group, k: nat)
    requires AsksPowers(g) && k < |g.components| && g.components[k].Input?
    ensures PowerOfTwo(AlignOf(g.components[k].align))
  {
  }

  lemma RegionKept(before: Group, after: Group)
    requires Laid(before, after)
    ensures after.region == before.region
  {
  }

  lemma InputKept(before: Group, after: Group, k: nat)
    requires Laid(before, after) && before.region >= 0 && k < |before.components| && before.components[k].Input?
    ensures k < |after.components| && after.components[k].Input? && after.components[k].size == before.components[k].size
  {
    InputPlaced(before, after, k);
  }

  // ---- sections in a row ----

  /** Where the section before i ends. */
  function PreviousEnd(sections: seq<Section>, addresses: seq<nat>, start: nat, i: nat): nat
    requires i <= |sections| && i <= |addresses|
  {
    if i == 0 then start else addresses[i - 1] + sections[i - 1].size
  }

  /** The sections in a row: each at the first multiple of its alignment after the one before it. */
  predicate InRow(sections: seq<Section>, addresses: seq<nat>, start: nat, n: nat)
    requires n <= |sections| && n <= |addresses|
  {
    forall i :: 0 <= i < n ==> addresses[i] == RoundUp(PreviousEnd(sections, addresses, start, i), AlignOf(sections[i].align))
  }

  lemma {:induction false} RowDisjoint(sections: seq<Section>, addresses: seq<nat>, start: nat, i: nat, j: nat)
    requires |addresses| == |sections| && InRow(sections, addresses, start, |sections|) && i <= j < |sections|
    ensures addresses[i] % AlignOf(sections[i].align) == 0
    ensures i < j ==> addresses[i] + sections[i].size <= addresses[j]
    ensures start <= addresses[i] <= addresses[j]
    decreases j
  {
    hide RoundUp;
    RoundUpMeaning(PreviousEnd(sections, addresses, start, j), AlignOf(sections[j].align));
    if j > 0 {
      if i < j {
        RowDisjoint(sections, addresses, start, i, j - 1);
      } else {
        RowDisjoint(sections, addresses, start, j - 1, j - 1);
      }
    }
  }

  lemma RowExtends(sections: seq<Section>, addresses: seq<nat>, start: nat, s: Section, address: nat)
    requires |addresses| == |sections| && InRow(sections, addresses, start, |sections|)
    requires address == RoundUp(PreviousEnd(sections, addresses, start, |sections|), AlignOf(s.align))
    ensures var ss, aa := sections + [s], addresses + [address];
            InRow(ss, aa, start, |ss|) && PreviousEnd(ss, aa, start, |ss|) == address + s.size
  {
    hide RoundUp;
    var ss, aa := sections + [s], addresses + [address];
    forall i | 0 <= i < |ss|
      ensures aa[i] == RoundUp(PreviousEnd(ss, aa, start, i), AlignOf(ss[i].align))
    {
      assert PreviousEnd(ss, aa, start, i) == PreviousEnd(sections, addresses, start, i);
    }
  }

  lemma NoRow(start: nat)
    ensures InRow([], [], start, 0) && PreviousEnd([], [], start, 0) == start
  {
  }
}
