/**
 Symbols changed in place as files are read, and storage given to common symbols.
 */
module SymbolTable {
  import opened Words
  import opened Layout
  import opened Placement
  import opened SymbolMerge

  class LinkerSymbol {
    var header: Decl
    var defined: bool
    var size: nat
    var value: nat
    var file: nat

    /** A symbol is created by its first declaration. */
    constructor (d: Decl)
      ensures Now() == First(d)
    {
      header, defined, size, value, file := d, d.kind != Undefined, d.size, d.value, d.file;
    }

    function Now(): State
      reads this
    {
      State(header, defined, size, value, file)
    }

    method AdoptDefinition(d: Decl)
      modifies this
      ensures Now() == old(Now()).(header := d, size := d.size, value := d.value, file := d.file)
    {
      header, value, size, file := d, d.value, d.size, d.file;
    }

    /** One more declaration; the result is whether it is a multiple definition. */
    method RedefineSymbol(d: Decl) returns (multiple: bool)
      modifies this
      ensures Merged(Now(), multiple) == Redefine(old(Now()), d)
    {
      multiple := false;
      var definingSymbol := d.kind != Undefined;
      if definingSymbol {
        if defined {
          if header.kind == Common && d.kind == Common {
            if d.size > size {
              size := d.size;
            }
            return;
          }
          if header.weak && d.weak {
            return;
          }
          if !header.weak && d.weak {
            return;
          }
          if header.weak && !d.weak {
            AdoptDefinition(d);
            return;
          }
          multiple := true;
          return;
        }
        AdoptDefinition(d);
        defined := true;
      }
      if !definingSymbol && !defined && header.weak && !d.weak {
        header, size, file := d, d.size, d.file;
      }
    }
  }

  /** All declarations of one global name, as the files are read. */
  method ReadDeclarations(ds: seq<Decl>) returns (symbol: LinkerSymbol, errors: nat)
    requires ds != []
    ensures Result(symbol.Now(), errors) == Resolve(ds) && fresh(symbol)
    ensures symbol.header in ds && (symbol.defined <==> symbol.header.kind != Undefined)
    ensures symbol.defined ==> symbol.value == symbol.header.value && symbol.file == symbol.header.file
  {
    symbol := new LinkerSymbol(ds[0]);
    errors := 0;
    assert ds[..1] == [ds[0]];
    var i := 1;
    while i < |ds|
      invariant 1 <= i <= |ds| && fresh(symbol)
      invariant Result(symbol.Now(), errors) == Resolve(ds[..i])
    {
      assert ds[..i + 1][..i] == ds[..i];
      var multiple := symbol.RedefineSymbol(ds[i]);
      if multiple {
        errors := errors + 1;
      }
      i := i + 1;
    }
    assert ds[..i] == ds;
    HeaderGoverns(ds);
  }

  // ---- common storage ----

  /** The alignment a common symbol asks for, or the natural one of its size up to 16. */
  method CommonAlignment(value: nat, size: nat) returns (alignment: nat)
    ensures RoomFor(CommonSymbol(value, size), Section(alignment, size))
    ensures value == 0 ==> PowerOfTwo(alignment) && 1 <= alignment <= 16
                           && (alignment >= size || alignment == 16) && (alignment == 1 || alignment / 2 < size)
  {
    alignment := value;
    if alignment == 0 {
      alignment := 1;
      assert IsPow2(1, 0);
      ghost var k: nat := 0;
      while alignment < size && alignment < 16
        invariant IsPow2(alignment, k) && k <= 4 && 1 <= alignment <= 16
        invariant alignment == 1 || alignment / 2 < size
        decreases 4 - k
      {
        Pow2Next(k);
        assert Pow2(4) == 16 by { Pow2Small(); Pow2Next(3); }
        if k == 4 {
          assert false;
        }
        alignment := alignment * 2;
        k := k + 1;
      }
    }
  }

  datatype CommonSymbol = CommonSymbol(value: nat, size: nat)

  /** The room each common symbol takes, with the alignment it was given. */
  predicate Rooms(symbols: seq<CommonSymbol>, rooms: seq<Section>) {
    && |rooms| == |symbols|
    && forall i :: 0 <= i < |symbols| ==> RoomFor(symbols[i], rooms[i])
  }

  predicate RoomFor(s: CommonSymbol, r: Section) {
    && r.size == s.size && r.align >= 1 && (s.value != 0 ==> r.align == s.value)
    && (s.value == 0 ==> r.align <= 16 && (r.align >= s.size || r.align == 16) && (r.align == 1 || r.align / 2 < s.size))
  }

  /** The common symbols of all files, one after another, each at a multiple of its alignment. */
  method AssignCommonSymbolAddresses(symbols: seq<CommonSymbol>, start: nat)
    returns (addresses: seq<nat>, end: nat, ghost rooms: seq<Section>)
    ensures Rooms(symbols, rooms) && |addresses| == |symbols| && InRow(rooms, addresses, start, |symbols|)
    ensures end == PreviousEnd(rooms, addresses, start, |symbols|)
  {
    hide *;
    addresses, end, rooms := [], start, [];
    NoRow(start);
    NoRooms();
    var i := 0;
    while i < |symbols|
      invariant 0 <= i <= |symbols| && |addresses| == i == |rooms| && Rooms(symbols[..i], rooms)
      invariant InRow(rooms, addresses, start, i) && end == PreviousEnd(rooms, addresses, start, i)
    {
      var alignment := CommonAlignment(symbols[i].value, symbols[i].size);
      var address := RoundUp(end, alignment);
      RoomGiven(symbols[..i], rooms, symbols[i], alignment);
      RowExtends(rooms, addresses, start, Section(alignment, symbols[i].size), address);
      assert symbols[..i + 1] == symbols[..i] + [symbols[i]];
      addresses := addresses + [address];
      rooms := rooms + [Section(alignment, symbols[i].size)];
      end := address + symbols[i].size;
      i := i + 1;
    }
    assert symbols[..i] == symbols;
  }

  lemma NoRooms()
    ensures Rooms([], [])
  {
  }

  lemma RoomGiven(symbols: seq<CommonSymbol>, rooms: seq<Section>, s: CommonSymbol, alignment: nat)
    requires Rooms(symbols, rooms) && RoomFor(s, Section(alignment, s.size))
    ensures Rooms(symbols + [s], rooms + [Section(alignment, s.size)]) && AlignOf(alignment) == alignment
  {
    hide RoomFor;
    assert alignment >= 1 by { RoomAlign(s, alignment); }
  }

  lemma RoomAlign(s: CommonSymbol, alignment: nat)
    requires RoomFor(s, Section(alignment, s.size))
    ensures alignment >= 1
  {
  }

  /** Common symbols are aligned and never overlap. */
  lemma CommonsDisjoint(symbols: seq<CommonSymbol>, rooms: seq<Section>, addresses: seq<nat>, start: nat, i: nat, j: nat)
    requires Rooms(symbols, rooms) && |addresses| == |rooms| && InRow(rooms, addresses, start, |rooms|)
    requires i < j < |symbols|
    ensures start <= addresses[i] && addresses[i] + symbols[i].size <= addresses[j]
    ensures symbols[j].value != 0 ==> addresses[j] % symbols[j].value == 0
    ensures symbols[i].value != 0 ==> addresses[i] % symbols[i].value == 0
  {
    RowDisjoint(rooms, addresses, start, i, j);
    RowDisjoint(rooms, addresses, start, j, j);
    assert RoomFor(symbols[i], rooms[i]) && RoomFor(symbols[j], rooms[j]);
  }
}
