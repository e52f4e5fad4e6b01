/**
 The dynamic relocation section: the space allocated for it before layout, the two passes
 that fill it, the count of relative entries recorded for the loader, and what a loader that
 trusts that count does with the bytes.
 */
module DynamicRelocations {
  import opened LittleEndian
  import opened Words

  // ---- relocations and the entries made of them ----

  type i32 = x: int | -0x8000_0000 <= x < 0x8000_0000

  datatype Symbol = NoSymbol | Symbol(dynamicIndex: i32, index: i32, address: u64)

  /** bySymbol entries name their symbol; the others are relative to the load address. */
  datatype Reloc = Reloc(offset: u64, sectionAddress: u64, bySymbol: bool, symbol: Symbol, addend: u64, kind: i32)

  datatype Entry = Entry(offset: u64, symbolIndex: i32, addend: u64, kind: i32)

  /** Where a relocation's offset is measured from: its own section, or the GOT. */
  datatype Base = OwnSection | Fixed(address: u64)

  function AddressOf(r: Reloc, base: Base): u64 {
    (r.offset + (if base.Fixed? then base.address else r.sectionAddress)) % TWO64
  }

  function SymbolIndexOf(s: Symbol): i32
    requires s.Symbol?
  {
    var index := if s.dynamicIndex != -1 then s.dynamicIndex else s.index;
    if index == -1 then 0 else index
  }

  /** StoreAddressRelocation; a relocation by symbol has one. */
  function EntryOf(r: Reloc, base: Base): Entry {
    if r.bySymbol then Entry(AddressOf(r, base), if r.symbol.Symbol? then SymbolIndexOf(r.symbol) else 0, r.addend, r.kind)
    else Entry(AddressOf(r, base), 0, (r.addend + (if r.symbol.Symbol? then r.symbol.address else 0)) % TWO64, r.kind)
  }

  /** A symbol is named by its dynamic index, failing that by its own, and failing both by 0. */
  lemma IndexNamed(s: Symbol)
    requires s.Symbol?
    ensures s.dynamicIndex != -1 ==> SymbolIndexOf(s) == s.dynamicIndex
    ensures s.dynamicIndex == -1 && s.index != -1 ==> SymbolIndexOf(s) == s.index
    ensures s.dynamicIndex == -1 && s.index == -1 ==> SymbolIndexOf(s) == 0
  {
  }

  /** What an entry says: where the word is, what it is relative to, and the rest of the word. */
  lemma EntrySays(r: Reloc, gotAddress: u64)
    requires r.bySymbol ==> r.symbol.Symbol?
    ensures var e := EntryOf(r, OwnSection);
            && e.offset == (r.offset + r.sectionAddress) % TWO64 && e.kind == r.kind
            && (if r.bySymbol then e.addend == r.addend
                else e.symbolIndex == 0
                     && e.addend == (if r.symbol.Symbol? then (r.addend + r.symbol.address) % TWO64 else r.addend))
    ensures EntryOf(r, Fixed(gotAddress)) == EntryOf(r, OwnSection).(offset := (r.offset + gotAddress) % TWO64)
  {
  }

  // ---- the bytes of an entry ----

  datatype Format = Rel32 | Rela32 | Rela64

  function EntrySize(f: Format): (size: nat)
    ensures size > 0
  {
    match f
    case Rel32 => 8
    case Rela32 => 12
    case Rela64 => 24
  }

  function Unsigned32(x: i32): nat { if x < 0 then x + 0x1_0000_0000 else x }

  /** (sym << 8) + (type & 0xff) in 32 bits. */
  function Info32(e: Entry): nat { (Unsigned32(e.symbolIndex) * 256 + e.kind % 256) % 0x1_0000_0000 }

  /** sym << 32 | type in 64 bits, where a negative type fills the upper half with ones. */
  function Info64(e: Entry): nat {
    if e.kind < 0 then 0xFFFF_FFFF_0000_0000 + Unsigned32(e.kind) else Unsigned32(e.symbolIndex) * 0x1_0000_0000 + e.kind
  }

  function Encode(f: Format, e: Entry): (s: seq<byte>)
    ensures |s| == EntrySize(f)
  {
    match f
    case Rel32 => ToBytes(e.offset, 4) + ToBytes(Info32(e), 4)
    case Rela32 => ToBytes(e.offset, 4) + ToBytes(Info32(e), 4) + ToBytes(e.addend, 4)
    case Rela64 => ToBytes(e.offset, 8) + ToBytes(Info64(e), 8) + ToBytes(e.addend, 8)
  }

  function SignExtend32(x: nat): nat { if x < 0x8000_0000 then x else x + 0xFFFF_FFFF_0000_0000 }

  /** What a reader of the format finds: offset, symbol, addend and type. */
  datatype Read = Read(offset: int, symbolIndex: int, addend: int, kind: int)

  function Decode(f: Format, s: seq<byte>): Read
    requires |s| == EntrySize(f)
  {
    match f
    case Rel32 => var info := FromBytes(s[4..8]); Read(FromBytes(s[..4]), info / 256, 0, info % 256)
    case Rela32 =>
      var info := FromBytes(s[4..8]);
      Read(FromBytes(s[..4]), info / 256, SignExtend32(FromBytes(s[8..])), info % 256)
    case Rela64 =>
      var info := FromBytes(s[8..16]);
      Read(FromBytes(s[..8]), info / 0x1_0000_0000, FromBytes(s[16..]), info % 0x1_0000_0000)
  }

  /** The entry is one the format can hold. */
  predicate Fits(f: Format, e: Entry) {
    && e.kind >= 0 && e.symbolIndex >= 0
    && (f != Rela64 ==> e.offset < 0x1_0000_0000 && e.symbolIndex < 0x100_0000 && e.kind < 256)
    && (f == Rel32 ==> e.addend == 0)
    && (f == Rela32 ==> e.addend < 0x8000_0000 || e.addend >= 0xFFFF_FFFF_8000_0000)
  }

  lemma WordSizes()
    ensures Modulus(4) == 0x1_0000_0000 && Modulus(8) == TWO64
  {
    ModulusFits(8);
    assert Modulus(4) == 0x1_0000_0000 by { assert Modulus(2) == 0x1_0000; }
  }

  lemma ThreeFields(a: seq<byte>, b: seq<byte>, c: seq<byte>)
    ensures (a + b + c)[..|a|] == a && (a + b + c)[|a|..|a| + |b|] == b && (a + b + c)[|a| + |b|..] == c
    ensures (a + b)[..|a|] == a && (a + b)[|a|..|a| + |b|] == b
  {
  }

  lemma WideWord(v: u64)
    ensures FromBytes(ToBytes(v, 8)) == v
  {
    WordSizes();
    BytesRoundTrip(v, 8);
    DivUnique(v, TWO64, 0, v);
  }

  lemma ReadWide(e: Entry)
    ensures Decode(Rela64, Encode(Rela64, e)) == Read(e.offset, Info64(e) / 0x1_0000_0000, e.addend, Info64(e) % 0x1_0000_0000)
  {
    hide ToBytes, FromBytes;
    ThreeFields(ToBytes(e.offset, 8), ToBytes(Info64(e), 8), ToBytes(e.addend, 8));
    WideWord(e.offset);
    WideWord(Info64(e));
    WideWord(e.addend);
    hide Info64;
  }

  lemma ReadNarrow(f: Format, e: Entry)
    requires f != Rela64
    ensures Decode(f, Encode(f, e))
         == Read(e.offset % 0x1_0000_0000, Info32(e) / 256,
                 if f == Rel32 then 0 else SignExtend32(e.addend % 0x1_0000_0000), Info32(e) % 256)
  {
    WordSizes();
    ThreeFields(ToBytes(e.offset, 4), ToBytes(Info32(e), 4), ToBytes(e.addend, 4));
    BytesRoundTrip(e.offset, 4);
    BytesRoundTrip(Info32(e), 4);
    BytesRoundTrip(e.addend, 4);
    hide ToBytes, FromBytes, Modulus;
  }

  lemma WideInfo(e: Entry)
    ensures Info64(e) / 0x1_0000_0000 == e.symbolIndex && Info64(e) % 0x1_0000_0000 == e.kind <==> e.kind >= 0 && e.symbolIndex >= 0
  {
  }

  lemma NarrowInfo(e: Entry)
    ensures Info32(e) / 256 == e.symbolIndex && Info32(e) % 256 == e.kind <==> 0 <= e.kind < 256 && 0 <= e.symbolIndex < 0x100_0000
  {
  }

  lemma NarrowAddend(addend: u64)
    ensures SignExtend32(addend % 0x1_0000_0000) == addend <==> addend < 0x8000_0000 || addend >= 0xFFFF_FFFF_8000_0000
  {
  }

  /** An entry reads back as itself exactly when it fits the format. */
  lemma EntryRoundTrip(f: Format, e: Entry)
    ensures Decode(f, Encode(f, e)) == Read(e.offset, e.symbolIndex, e.addend, e.kind) <==> Fits(f, e)
  {
    hide Encode, Decode, Info32, Info64, SignExtend32;
    if f == Rela64 {
      ReadWide(e);
      WideInfo(e);
    } else {
      ReadNarrow(f, e);
      NarrowInfo(e);
      NarrowAddend(e.addend);
    }
  }

  // ---- the order of the entries ----

  /** The relocations of rs that do or do not name a symbol, in order. */
  function Matching(rs: seq<Reloc>, bySymbol: bool): seq<Reloc> {
    if rs == [] then []
    else Matching(rs[..|rs| - 1], bySymbol)
         + (if rs[|rs| - 1].bySymbol == bySymbol then [rs[|rs| - 1]] else [])
  }

  function Entries(rs: seq<Reloc>, base: Base): (es: seq<Entry>)
    ensures |es| == |rs|
    ensures forall i :: 0 <= i < |rs| ==> es[i] == EntryOf(rs[i], base)
  {
    seq(|rs|, i requires 0 <= i < |rs| => EntryOf(rs[i], base))
  }

  /** One pass: the matching entries of the data, then of the GOT. */
  function Pass(data: seq<Reloc>, got: seq<Reloc>, gotAddress: u64, bySymbol: bool): seq<Entry> {
    Entries(Matching(data, bySymbol), OwnSection) + Entries(Matching(got, bySymbol), Fixed(gotAddress))
  }

  /** The relative entries of both tables come before all entries that name a symbol. */
  function Emitted(data: seq<Reloc>, got: seq<Reloc>, gotAddress: u64): seq<Entry> {
    Pass(data, got, gotAddress, false) + Pass(data, got, gotAddress, true)
  }

  function RelativeCount(data: seq<Reloc>, got: seq<Reloc>): nat {
    |Matching(data, false)| + |Matching(got, false)|
  }

  lemma {:induction false} MatchingShape(rs: seq<Reloc>)
    ensures |Matching(rs, false)| + |Matching(rs, true)| == |rs|
    ensures forall b, i :: 0 <= i < |Matching(rs, b)| ==> Matching(rs, b)[i].bySymbol == b
  {
    if rs != [] {
      MatchingShape(rs[..|rs| - 1]);
    }
  }

  lemma {:induction false} MatchingSplits(rs: seq<Reloc>, base: Base)
    ensures |Matching(rs, false)| + |Matching(rs, true)| == |rs|
    ensures multiset(Entries(Matching(rs, false), base)) + multiset(Entries(Matching(rs, true), base))
         == multiset(Entries(rs, base))
  {
    hide *;
    MatchingShape(rs);
    if rs == [] {
      MatchingNone(base);
    } else {
      var r, rest := rs[|rs| - 1], rs[..|rs| - 1];
      MatchingSplits(rest, base);
      MatchingAppend(rest, r);
      assert rs == rest + [r];
      EntriesAppend(rest, r, base);
      EntriesAppend(Matching(rest, r.bySymbol), r, base);
      SumAppend(Entries(Matching(rest, false), base), Entries(Matching(rest, true), base), Entries(rest, base),
                EntryOf(r, base));
    }
  }

  lemma MatchingNone(base: Base)
    ensures Entries([], base) == [] && Matching([], false) == [] && Matching([], true) == []
  {
  }

  lemma MatchingAppend(rest: seq<Reloc>, r: Reloc)
    ensures Matching(rest + [r], r.bySymbol) == Matching(rest, r.bySymbol) + [r]
    ensures Matching(rest + [r], !r.bySymbol) == Matching(rest, !r.bySymbol)
  {
    assert (rest + [r])[..|rest|] == rest;
  }

  lemma SumAppend(a: seq<Entry>, b: seq<Entry>, c: seq<Entry>, e: Entry)
    requires multiset(a) + multiset(b) == multiset(c)
    ensures multiset(a + [e]) + multiset(b) == multiset(c + [e]) == multiset(a) + multiset(b + [e])
  {
  }

  lemma EntriesAppend(rs: seq<Reloc>, r: Reloc, base: Base)
    ensures Entries(rs + [r], base) == Entries(rs, base) + [EntryOf(r, base)]
  {
  }

  /** Every relocation is written exactly once, and they fill exactly the space allocated for them. */
  lemma EmittedOnce(data: seq<Reloc>, got: seq<Reloc>, gotAddress: u64)
    ensures |Emitted(data, got, gotAddress)| == |data| + |got|
    ensures multiset(Emitted(data, got, gotAddress))
         == multiset(Entries(data, OwnSection)) + multiset(Entries(got, Fixed(gotAddress)))
  {
    MatchingSplits(data, OwnSection);
    MatchingSplits(got, Fixed(gotAddress));
    hide Matching;
  }

  /** The relocation behind the entry at each place of the section. */
  function Sources(data: seq<Reloc>, got: seq<Reloc>): (rs: seq<Reloc>)
    ensures |rs| == |data| + |got|
  {
    MatchingShape(data);
    MatchingShape(got);
    Matching(data, false) + Matching(got, false) + Matching(data, true) + Matching(got, true)
  }

  function BaseAt(data: seq<Reloc>, got: seq<Reloc>, gotAddress: u64, k: nat): Base {
    if k < |Matching(data, false)| || RelativeCount(data, got) <= k < RelativeCount(data, got) + |Matching(data, true)|
    then OwnSection else Fixed(gotAddress)
  }

  /** The recorded count is the length of the leading run of relative entries. */
  lemma RelativeRun(data: seq<Reloc>, got: seq<Reloc>, gotAddress: u64, k: nat)
    requires k < |data| + |got|
    ensures |Emitted(data, got, gotAddress)| == |data| + |got|
    ensures Sources(data, got)[k].bySymbol <==> k >= RelativeCount(data, got)
    ensures Emitted(data, got, gotAddress)[k] == EntryOf(Sources(data, got)[k], BaseAt(data, got, gotAddress, k))
  {
    MatchingShape(data);
    MatchingShape(got);
    hide Matching, EntryOf;
  }

  // ---- filling the section ----

  /** Where entry index begins. */
  function Offset(f: Format, index: nat): nat { index * EntrySize(f) }

  lemma SlotFits(index: nat, n: nat, f: Format)
    requires index < n
    ensures Offset(f, index + 1) == Offset(f, index) + EntrySize(f) <= Offset(f, n)
  {
    MulMono(index + 1, n, EntrySize(f));
  }

  function EncodeAll(f: Format, es: seq<Entry>): (s: seq<byte>)
    ensures |s| == Offset(f, |es|)
  {
    if es == [] then []
    else
      SlotFits(|es| - 1, |es|, f);
      EncodeAll(f, es[..|es| - 1]) + Encode(f, es[|es| - 1])
  }

  lemma EncodeAppend(f: Format, es: seq<Entry>, e: Entry)
    ensures EncodeAll(f, es + [e]) == EncodeAll(f, es) + Encode(f, e)
  {
    assert (es + [e])[..|es|] == es;
  }

  method StoreDynamicRelocation(f: Format, buffer: array<byte>, at: nat, e: Entry, ghost done: seq<Entry>)
    requires at + EntrySize(f) <= buffer.Length && buffer[..at] == EncodeAll(f, done)
    modifies buffer
    ensures buffer[..at + EntrySize(f)] == EncodeAll(f, done + [e])
  {
    var bytes := Encode(f, e);
    EncodeAppend(f, done, e);
    hide Encode, EncodeAll, EntrySize, Offset;
    forall i | 0 <= i < |bytes| {
      buffer[at + i] := bytes[i];
    }
    assert buffer[..at + |bytes|] == buffer[..at] + bytes;
  }

  /** The entries of one table that match the pass. */
  method EmitTable(rs: seq<Reloc>, base: Base, bySymbol: bool, f: Format, buffer: array<byte>, start: nat,
                   n: nat, ghost done: seq<Entry>)
    returns (index: nat)
    requires |done| == start && start + |Matching(rs, bySymbol)| <= n && buffer.Length == Offset(f, n)
    requires Offset(f, start) <= buffer.Length && buffer[..Offset(f, start)] == EncodeAll(f, done)
    modifies buffer
    ensures index == start + |Matching(rs, bySymbol)| && Offset(f, index) <= buffer.Length
    ensures buffer[..Offset(f, index)] == EncodeAll(f, done + Entries(Matching(rs, bySymbol), base))
  {
    hide EncodeAll, EntryOf, EntrySize, Offset;
    index := start;
    ghost var written := done;
    assert done + Entries(Matching(rs[..0], bySymbol), base) == done;
    var i := 0;
    while i < |rs|
      invariant 0 <= i <= |rs| && index == start + |Matching(rs[..i], bySymbol)|
      invariant |written| == index && written == done + Entries(Matching(rs[..i], bySymbol), base)
      invariant Offset(f, index) <= buffer.Length && buffer[..Offset(f, index)] == EncodeAll(f, written)
    {
      MatchingPrefix(rs, i, bySymbol);
      if rs[i].bySymbol == bySymbol {
        SlotFits(index, n, f);
        StoreDynamicRelocation(f, buffer, Offset(f, index), EntryOf(rs[i], base), written);
        EntriesAppend(Matching(rs[..i], bySymbol), rs[i], base);
        written := written + [EntryOf(rs[i], base)];
        index := index + 1;
      }
      i := i + 1;
    }
    assert rs[..i] == rs;
  }

  lemma {:induction false} MatchingPrefix(rs: seq<Reloc>, i: nat, bySymbol: bool)
    requires i < |rs|
    ensures Matching(rs[..i + 1], bySymbol)
         == Matching(rs[..i], bySymbol) + (if rs[i].bySymbol == bySymbol then [rs[i]] else [])
    ensures |Matching(rs[..i + 1], bySymbol)| <= |Matching(rs, bySymbol)|
    decreases |rs|
  {
    assert rs[..i + 1][..i] == rs[..i];
    if i + 1 < |rs| {
      MatchingPrefix(rs[..|rs| - 1], i, bySymbol);
      assert rs[..|rs| - 1][..i + 1] == rs[..i + 1] && rs[..|rs| - 1][..i] == rs[..i];
    } else {
      assert rs[..i + 1] == rs;
    }
  }

  /** The space reserved before the entries are known. */
  method AllocateDynamicRelocations(data: seq<Reloc>, got: seq<Reloc>, f: Format) returns (buffer: array<byte>)
    ensures buffer.Length == Offset(f, |data| + |got|) && fresh(buffer)
  {
    buffer := new byte[Offset(f, |data| + |got|)](_ => 0);
  }

  method EmitPass(data: seq<Reloc>, got: seq<Reloc>, gotAddress: u64, bySymbol: bool, f: Format, buffer: array<byte>,
                  start: nat, n: nat, ghost done: seq<Entry>)
    returns (index: nat)
    requires |done| == start && start + |Pass(data, got, gotAddress, bySymbol)| <= n
    requires buffer.Length == Offset(f, n) && Offset(f, start) <= buffer.Length
    requires buffer[..Offset(f, start)] == EncodeAll(f, done)
    modifies buffer
    ensures index == start + |Pass(data, got, gotAddress, bySymbol)| && Offset(f, index) <= buffer.Length
    ensures buffer[..Offset(f, index)] == EncodeAll(f, done + Pass(data, got, gotAddress, bySymbol))
  {
    hide EncodeAll, Matching, EntrySize, EntryOf, Offset;
    index := EmitTable(data, OwnSection, bySymbol, f, buffer, start, n, done);
    ghost var half := done + Entries(Matching(data, bySymbol), OwnSection);
    index := EmitTable(got, Fixed(gotAddress), bySymbol, f, buffer, index, n, half);
    assert half + Entries(Matching(got, bySymbol), Fixed(gotAddress)) == done + Pass(data, got, gotAddress, bySymbol);
  }

  /** The entries written before a pass. */
  function Through(data: seq<Reloc>, got: seq<Reloc>, gotAddress: u64, pass: nat): (es: seq<Entry>)
    ensures |es| <= |data| + |got| && (pass >= 2 ==> |es| == |data| + |got|)
    ensures pass < 2 ==> |es| + |Pass(data, got, gotAddress, pass == 1)| <= |data| + |got|
  {
    MatchingSplits(data, OwnSection);
    MatchingSplits(got, Fixed(gotAddress));
    if pass == 0 then [] else if pass == 1 then Pass(data, got, gotAddress, false) else Emitted(data, got, gotAddress)
  }

  lemma ThroughNext(data: seq<Reloc>, got: seq<Reloc>, gotAddress: u64, pass: nat)
    requires pass < 2
    ensures Through(data, got, gotAddress, pass) + Pass(data, got, gotAddress, pass == 1)
         == Through(data, got, gotAddress, pass + 1)
    ensures |Through(data, got, gotAddress, pass)| + |Pass(data, got, gotAddress, pass == 1)|
         == |Through(data, got, gotAddress, pass + 1)|
  {
  }

  lemma ThroughEnds(data: seq<Reloc>, got: seq<Reloc>, gotAddress: u64, f: Format)
    ensures Through(data, got, gotAddress, 0) == [] && Through(data, got, gotAddress, 2) == Emitted(data, got, gotAddress)
    ensures EncodeAll(f, []) == [] && Offset(f, 0) == 0
  {
  }

  method BuildDynamicRelocations(data: seq<Reloc>, got: seq<Reloc>, gotAddress: u64, f: Format, buffer: array<byte>)
    requires buffer.Length == Offset(f, |data| + |got|)
    modifies buffer
    ensures buffer[..] == EncodeAll(f, Emitted(data, got, gotAddress))
  {
    hide *;
    ThroughEnds(data, got, gotAddress, f);
    var index, n := 0, |data| + |got|;
    assert buffer[..0] == [];
    for pass := 0 to 2
      invariant index == |Through(data, got, gotAddress, pass)| && Offset(f, index) <= buffer.Length
      invariant buffer[..Offset(f, index)] == EncodeAll(f, Through(data, got, gotAddress, pass))
    {
      ThroughNext(data, got, gotAddress, pass);
      index := EmitPass(data, got, gotAddress, pass == 1, f, buffer, index, n, Through(data, got, gotAddress, pass));
    }
    assert buffer[..] == buffer[..Offset(f, index)];
  }

  method CountIn(rs: seq<Reloc>) returns (count: nat)
    ensures count == |Matching(rs, false)|
  {
    count := 0;
    var i := 0;
    while i < |rs|
      invariant 0 <= i <= |rs| && count == |Matching(rs[..i], false)|
    {
      MatchingPrefix(rs, i, false);
      if !rs[i].bySymbol {
        count := count + 1;
      }
      i := i + 1;
    }
    assert rs[..i] == rs;
  }

  /** The value of DT_RELACOUNT or DT_RELCOUNT. */
  method CountRelative(data: seq<Reloc>, got: seq<Reloc>) returns (count: nat)
    ensures count == RelativeCount(data, got)
  {
    var fromData := CountIn(data);
    var fromGot := CountIn(got);
    count := fromData + fromGot;
  }

  // ---- what the loader does ----

  function Slot(f: Format, section: seq<byte>, k: nat): (s: seq<byte>)
    requires Offset(f, k + 1) <= |section|
    ensures |s| == EntrySize(f)
  {
    SlotFits(k, k + 1, f);
    section[Offset(f, k)..Offset(f, k + 1)]
  }

  lemma {:induction false} SlotOf(f: Format, es: seq<Entry>, k: nat)
    requires k < |es|
    ensures Offset(f, k + 1) <= |EncodeAll(f, es)|
    ensures Slot(f, EncodeAll(f, es), k) == Encode(f, es[k])
    decreases |es|
  {
    hide Encode, Offset, EntrySize;
    SlotFits(k, |es|, f);
    var rest, last := es[..|es| - 1], es[|es| - 1];
    var first := EncodeAll(f, rest);
    assert EncodeAll(f, es) == first + Encode(f, last);
    if k < |rest| {
      SlotOf(f, rest, k);
      assert (first + Encode(f, last))[Offset(f, k)..Offset(f, k + 1)] == first[Offset(f, k)..Offset(f, k + 1)];
    } else {
      assert (first + Encode(f, last))[|first|..] == Encode(f, last);
    }
  }

  /** The words of an image hold 32 or 64 bits. */
  function WordModulus(f: Format): nat { if f == Rela64 then TWO64 else 0x1_0000_0000 }

  lemma WordBytes(f: Format)
    ensures WordModulus(f) == Modulus(if f == Rela64 then 8 else 4)
  {
    WordSizes();
  }

  /**
   The word a loader computes from entry k: it takes the first count entries to be relative
   to its load address, and looks up the symbol of the others.
   */
  function LoadedWord(f: Format, section: seq<byte>, k: nat, count: nat, loadAddress: u64, symbolAddress: int -> u64): int
    requires Offset(f, k + 1) <= |section|
  {
    var r := Decode(f, Slot(f, section, k));
    ((if k < count then loadAddress else symbolAddress(r.symbolIndex)) + r.addend) % WordModulus(f)
  }

  /** What the word must hold once the image is loaded. */
  function WantedWord(f: Format, r: Reloc, loadAddress: u64, symbolAddress: int -> u64): int
    requires r.bySymbol ==> r.symbol.Symbol?
  {
    if r.bySymbol then (symbolAddress(SymbolIndexOf(r.symbol)) + r.addend) % WordModulus(f)
    else (loadAddress + (r.addend + (if r.symbol.Symbol? then r.symbol.address else 0))) % WordModulus(f)
  }

  lemma AddMod(a: nat, b: nat, c: nat, m: nat)
    requires c > 0 && m > 0
    ensures c * m > 0 && (a + b % (c * m)) % m == (a + b) % m
  {
    var k := c * m;
    var q, r := b / k, (a + b % k) / m;
    assert b == k * q + b % k;
    assert a + b % k == m * r + (a + b % k) % m;
    assert k * q == m * (c * q);
    assert m * (c * q + r) == m * (c * q) + m * r;
    DivUnique(a + b, m, c * q + r, (a + b % k) % m);
  }

  lemma WordMod(f: Format, a: nat, b: nat)
    ensures (a + b % TWO64) % WordModulus(f) == (a + b) % WordModulus(f)
  {
    AddMod(a, b, if f == Rela64 then 1 else 0x1_0000_0000, WordModulus(f));
  }

  /**
   Loading by the recorded count gives every word of both tables the value it must have, in
   either format whose entries carry their addends, when the entry fits the format.
   */
  lemma LoaderAgrees(f: Format, data: seq<Reloc>, got: seq<Reloc>, gotAddress: u64, section: seq<byte>, k: nat,
                     loadAddress: u64, symbolAddress: int -> u64)
    requires f != Rel32 && k < |data| + |got| && section == EncodeAll(f, Emitted(data, got, gotAddress))
    requires var r := Sources(data, got)[k];
             Fits(f, EntryOf(r, BaseAt(data, got, gotAddress, k))) && (r.bySymbol ==> r.symbol.Symbol?)
    ensures Offset(f, k + 1) <= |section|
    ensures var r := Sources(data, got)[k];
            && Decode(f, Slot(f, section, k)).offset == AddressOf(r, BaseAt(data, got, gotAddress, k))
            && LoadedWord(f, section, k, RelativeCount(data, got), loadAddress, symbolAddress)
               == WantedWord(f, r, loadAddress, symbolAddress)
  {
    RelativeRun(data, got, gotAddress, k);
    SlotOf(f, Emitted(data, got, gotAddress), k);
    WordLoaded(f, Sources(data, got)[k], BaseAt(data, got, gotAddress, k), section, k, RelativeCount(data, got), loadAddress,
               symbolAddress);
  }

  /** One entry, in its slot, tells the loader the word it must make. */
  lemma WordLoaded(f: Format, r: Reloc, base: Base, section: seq<byte>, k: nat, count: nat, loadAddress: u64,
                   symbolAddress: int -> u64)
    requires Offset(f, k + 1) <= |section| && Slot(f, section, k) == Encode(f, EntryOf(r, base))
    requires Fits(f, EntryOf(r, base)) && (r.bySymbol ==> r.symbol.Symbol?)
    requires r.bySymbol <==> k >= count
    ensures Decode(f, Slot(f, section, k)).offset == AddressOf(r, base)
    ensures LoadedWord(f, section, k, count, loadAddress, symbolAddress) == WantedWord(f, r, loadAddress, symbolAddress)
  {
    EntryRoundTrip(f, EntryOf(r, base));
    hide Encode, Decode, Slot, AddressOf, SymbolIndexOf, Fits, WordModulus;
    WordMod(f, loadAddress, r.addend + (if r.symbol.Symbol? then r.symbol.address else 0));
  }
}
