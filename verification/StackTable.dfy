/**
 The bytes of the stack-trace section: the size fixed before layout, and the pass that fills
 it afterwards within that size.
 */
module StackTable {
  import opened LittleEndian
  import opened Words
  import opened StackTrace

  // ---- sorting ----

  function NameRoom(name: seq<byte>): nat { |name| + 1 }

  function NamesRoom(s: seq<Symbol>): nat {
    if s == [] then 0 else NamesRoom(s[..|s| - 1]) + NameRoom(s[|s| - 1].name)
  }

  function Insert(x: Symbol, s: seq<Symbol>): (r: seq<Symbol>)
    ensures |r| == |s| + 1 && multiset(r) == multiset(s) + multiset{x} && NamesRoom(r) == NamesRoom(s) + NameRoom(x.name)
  {
    if s == [] then [x]
    else
      var rest, last := s[..|s| - 1], s[|s| - 1];
      assert s == rest + [last];
      assert (s + [x])[..|s|] == s;
      if InOrder(last, x) then s + [x]
      else
        assert (Insert(x, rest) + [last])[..|rest| + 1] == Insert(x, rest);
        Insert(x, rest) + [last]
  }

  /** The library's sort of the symbols. */
  function SortSymbols(s: seq<Symbol>): (r: seq<Symbol>)
    ensures |r| == |s| && multiset(r) == multiset(s) && NamesRoom(r) == NamesRoom(s)
  {
    if s == [] then []
    else
      assert s == s[..|s| - 1] + [s[|s| - 1]];
      Insert(s[|s| - 1], SortSymbols(s[..|s| - 1]))
  }

  lemma {:induction false} InsertSorts(x: Symbol, s: seq<Symbol>)
    requires Sorted(s)
    ensures Sorted(Insert(x, s))
  {
    if s != [] {
      var rest, last := s[..|s| - 1], s[|s| - 1];
      if InOrder(last, x) {
        assert forall i :: 0 <= i < |s| ==> InOrder(s[i], last);
      } else {
        InsertSorts(x, rest);
        var r := Insert(x, rest);
        forall i | 0 <= i < |r|
          ensures InOrder(r[i], last)
        {
          assert r[i] in multiset(rest) + multiset{x};
          if r[i] != x {
            var k :| 0 <= k < |rest| && rest[k] == r[i];
            assert InOrder(s[k], last);
          }
        }
      }
    }
  }

  lemma {:induction false} SortSorts(s: seq<Symbol>)
    ensures Sorted(SortSymbols(s))
  {
    if s != [] {
      SortSorts(s[..|s| - 1]);
      InsertSorts(s[|s| - 1], SortSymbols(s[..|s| - 1]));
    }
  }

  function InsertLine(x: Line, s: seq<Line>): (r: seq<Line>)
    ensures |r| == |s| + 1 && multiset(r) == multiset(s) + multiset{x}
  {
    if s == [] then [x]
    else
      assert s == s[..|s| - 1] + [s[|s| - 1]];
      if s[|s| - 1].address <= x.address then s + [x] else InsertLine(x, s[..|s| - 1]) + [s[|s| - 1]]
  }

  function SortLines(s: seq<Line>): (r: seq<Line>)
    ensures |r| == |s| && multiset(r) == multiset(s)
  {
    if s == [] then []
    else
      assert s == s[..|s| - 1] + [s[|s| - 1]];
      InsertLine(s[|s| - 1], SortLines(s[..|s| - 1]))
  }

  lemma {:induction false} InsertLineSorts(x: Line, s: seq<Line>)
    requires LinesSorted(s)
    ensures LinesSorted(InsertLine(x, s))
  {
    if s != [] && s[|s| - 1].address > x.address {
      var rest, last := s[..|s| - 1], s[|s| - 1];
      InsertLineSorts(x, rest);
      var r := InsertLine(x, rest);
      forall i | 0 <= i < |r|
        ensures r[i].address <= last.address
      {
        assert r[i] in multiset(rest) + multiset{x};
      }
    }
  }

  lemma {:induction false} SortLinesSorts(s: seq<Line>)
    ensures LinesSorted(SortLines(s))
  {
    if s != [] {
      SortLinesSorts(s[..|s| - 1]);
      InsertLineSorts(s[|s| - 1], SortLines(s[..|s| - 1]));
    }
  }

  // ---- the bytes ----

  function NameBytes(name: seq<byte>): (r: seq<byte>)
    ensures |r| == NameRoom(name)
  {
    name + [0]
  }

  /** The names of the recorded functions, one after another. */
  function SymbolNames(s: seq<Symbol>, recs: seq<Rec>): seq<byte> {
    if recs == [] then []
    else
      var r := recs[|recs| - 1];
      SymbolNames(s, recs[..|recs| - 1]) + (if r.index < |s| then NameBytes(s[r.index].name) else [])
  }

  function SourceNames(sources: seq<seq<byte>>): seq<byte> {
    if sources == [] then [] else SourceNames(sources[..|sources| - 1]) + NameBytes(sources[|sources| - 1])
  }

  /** The room of k records of three values. */
  function Room(p: nat, k: nat): nat { if k == 0 then 0 else Room(p, k - 1) + 3 * p }

  lemma {:induction false} RoomIs(p: nat, k: nat)
    ensures Room(p, k) == k * (3 * p)
  {
    if k > 0 {
      RoomIs(p, k - 1);
      assert k * (3 * p) == (k - 1) * (3 * p) + 3 * p;
    }
  }

  lemma {:induction false} RoomMono(p: nat, j: nat, k: nat)
    requires j <= k
    ensures Room(p, j) <= Room(p, k) && (j < k ==> Room(p, j + 1) == Room(p, j) + 3 * p <= Room(p, k))
    decreases k
  {
    if j < k {
      RoomMono(p, j, k - 1);
    }
  }

  function Three(p: nat, a: nat, b: nat, c: nat): (r: seq<byte>)
    ensures |r| == 3 * p
  {
    ToBytes(a, p) + ToBytes(b, p) + ToBytes(c, p)
  }

  /** Addresses are written relative to the table. */
  function Relative(x: nat, table: u64): u64 { (x - table) % TWO64 }

  function SymbolRecords(p: nat, table: u64, s: seq<Symbol>, recs: seq<Rec>, names: nat): (r: seq<byte>)
    ensures |r| == Room(p, |recs|)
  {
    if recs == [] then []
    else
      var rest, last := recs[..|recs| - 1], recs[|recs| - 1];
      SymbolRecords(p, table, s, rest, names)
      + Three(p, Relative(last.start, table), Relative(last.end, table), names + |SymbolNames(s, rest)|)
  }

  /** Where the name of a source is, given where the names of sources begin. */
  function SourceOffset(sources: seq<seq<byte>>, base: nat, k: nat): nat {
    base + |SourceNames(if k < |sources| then sources[..k] else sources)|
  }

  function LineRecords(p: nat, table: u64, lines: seq<Line>, picked: seq<nat>, sources: seq<seq<byte>>, base: nat): (r: seq<byte>)
    ensures |r| == Room(p, |picked|)
  {
    if picked == [] then []
    else
      var rest, last := picked[..|picked| - 1], picked[|picked| - 1];
      LineRecords(p, table, lines, rest, sources, base)
      + (if last < |lines| then Three(p, Relative(lines[last].address, table),
                                      SourceOffset(sources, base, lines[last].source), lines[last].line)
         else Three(p, 0, 0, 0))
  }

  /** A value as the target reads it back from p bytes. */
  function ReadValue(p: nat, bytes: seq<byte>, at: nat): nat
    requires at + p <= |bytes|
  {
    FromBytes(bytes[at..at + p])
  }

  /** Record k is where its number says. */
  lemma {:induction false} RecordAt(p: nat, table: u64, s: seq<Symbol>, recs: seq<Rec>, names: nat, k: nat)
    requires k < |recs|
    ensures Room(p, k) + 3 * p <= Room(p, |recs|)
    ensures SymbolRecords(p, table, s, recs, names)[Room(p, k)..Room(p, k) + 3 * p]
         == Three(p, Relative(recs[k].start, table), Relative(recs[k].end, table), names + |SymbolNames(s, recs[..k])|)
  {
    hide *;
    RoomMono(p, k, |recs|);
    var rest, last := recs[..|recs| - 1], recs[|recs| - 1];
    var front := SymbolRecords(p, table, s, rest, names);
    var tail := Three(p, Relative(last.start, table), Relative(last.end, table), names + |SymbolNames(s, rest)|);
    assert recs == rest + [last];
    RecordsAppend(p, table, s, rest, last, names);
    if k < |rest| {
      RecordAt(p, table, s, rest, names, k);
      assert rest[..k] == recs[..k];
      SliceFront(front, tail, Room(p, k), 3 * p);
    } else {
      assert rest == recs[..k];
      SliceTail(front, tail, 0, 3 * p);
    }
  }

  /** What a reader finds in record k: its range relative to the table, and where its name is. */
  lemma RecordReadsBack(p: nat, table: u64, s: seq<Symbol>, recs: seq<Rec>, names: nat, k: nat)
    requires k < |recs|
    ensures Room(p, k) + 3 * p <= Room(p, |recs|)
    ensures var record := SymbolRecords(p, table, s, recs, names)[Room(p, k)..Room(p, k) + 3 * p];
            && ReadValue(p, record, 0) == Relative(recs[k].start, table) % Modulus(p)
            && ReadValue(p, record, p) == Relative(recs[k].end, table) % Modulus(p)
            && ReadValue(p, record, 2 * p) == (names + |SymbolNames(s, recs[..k])|) % Modulus(p)
  {
    hide *;
    RecordAt(p, table, s, recs, names, k);
    ThreeReadBack(p, Relative(recs[k].start, table), Relative(recs[k].end, table), names + |SymbolNames(s, recs[..k])|);
  }

  lemma SliceFront(a: seq<byte>, b: seq<byte>, at: nat, n: nat)
    requires at + n <= |a|
    ensures (a + b)[at..at + n] == a[at..at + n]
  {
  }

  lemma SliceTail(a: seq<byte>, b: seq<byte>, at: nat, n: nat)
    requires at + n <= |b|
    ensures (a + b)[|a| + at..|a| + at + n] == b[at..at + n]
  {
  }

  lemma ThreeReadBack(p: nat, a: nat, b: nat, c: nat)
    ensures var bytes := Three(p, a, b, c);
            && ReadValue(p, bytes, 0) == a % Modulus(p) && ReadValue(p, bytes, p) == b % Modulus(p)
            && ReadValue(p, bytes, 2 * p) == c % Modulus(p)
  {
    var x, y, z := ToBytes(a, p), ToBytes(b, p), ToBytes(c, p);
    BytesRoundTrip(a, p);
    BytesRoundTrip(b, p);
    BytesRoundTrip(c, p);
    assert (x + y + z)[0..p] == x && (x + y + z)[p..2 * p] == y && (x + y + z)[2 * p..3 * p] == z;
    hide ToBytes, FromBytes, Modulus;
  }

  /** A reader that adds the table's address gets the address. */
  lemma RelativeReturns(x: u64, table: u64)
    ensures (Relative(x, table) + table) % TWO64 == x
  {
    if x >= table {
      DivUnique(x - table, TWO64, 0, x - table);
      DivUnique(x, TWO64, 0, x);
    } else {
      DivUnique(x - table, TWO64, -1, x - table + TWO64);
      DivUnique(x + TWO64, TWO64, 1, x);
    }
  }

  /** The name of record k is where the record says, with a zero behind it. */
  lemma {:induction false} NameAt(s: seq<Symbol>, recs: seq<Rec>, k: nat)
    requires k < |recs| && recs[k].index < |s|
    ensures var at, name := |SymbolNames(s, recs[..k])|, s[recs[k].index].name;
            at + |name| + 1 <= |SymbolNames(s, recs)| && SymbolNames(s, recs)[at..at + |name| + 1] == name + [0]
  {
    var rest, last := recs[..|recs| - 1], recs[|recs| - 1];
    var front := SymbolNames(s, rest);
    var tail := if last.index < |s| then NameBytes(s[last.index].name) else [];
    var name := s[recs[k].index].name;
    assert SymbolNames(s, recs) == front + tail;
    if k < |rest| {
      NameAt(s, rest, k);
      assert rest[..k] == recs[..k];
      SliceFront(front, tail, |SymbolNames(s, recs[..k])|, |name| + 1);
    } else {
      assert rest == recs[..k];
      SliceTail(front, tail, 0, |name| + 1);
    }
    hide SymbolNames;
  }

  /** So is the name of source k. */
  lemma {:induction false} SourceAt(sources: seq<seq<byte>>, base: nat, k: nat)
    requires k < |sources|
    ensures var at := SourceOffset(sources, base, k) - base;
            0 <= at && at + |sources[k]| + 1 <= |SourceNames(sources)|
            && SourceNames(sources)[at..at + |sources[k]| + 1] == sources[k] + [0]
  {
    var rest := sources[..|sources| - 1];
    var front, tail := SourceNames(rest), NameBytes(sources[|sources| - 1]);
    if k < |rest| {
      SourceAt(rest, base, k);
      assert rest[..k] == sources[..k];
      SliceFront(front, tail, |SourceNames(sources[..k])|, |sources[k]| + 1);
    } else {
      assert rest == sources[..k];
      SliceTail(front, tail, 0, |sources[k]| + 1);
    }
  }

  /** What a reader finds in line record k: the address, its source's name and the line. */
  lemma {:induction false} LineReadsBack(p: nat, table: u64, lines: seq<Line>, picked: seq<nat>, sources: seq<seq<byte>>,
                                         base: nat, k: nat)
    requires k < |picked| && picked[k] < |lines|
    ensures Room(p, k) + 3 * p <= Room(p, |picked|)
    ensures LineRecords(p, table, lines, picked, sources, base)[Room(p, k)..Room(p, k) + 3 * p]
         == Three(p, Relative(lines[picked[k]].address, table), SourceOffset(sources, base, lines[picked[k]].source),
                  lines[picked[k]].line)
  {
    hide *;
    RoomMono(p, k, |picked|);
    var rest, last := picked[..|picked| - 1], picked[|picked| - 1];
    assert picked == rest + [last];
    var front := LineRecords(p, table, lines, rest, sources, base);
    if k < |rest| {
      LineReadsBack(p, table, lines, rest, sources, base, k);
      LineFront(p, table, lines, rest, last, sources, base, Room(p, k));
      RoomMono(p, k, |rest|);
    } else {
      var tail := Three(p, Relative(lines[last].address, table), SourceOffset(sources, base, lines[last].source),
                        lines[last].line);
      LineAppend(p, table, lines, rest, last, sources, base);
      SliceTail(front, tail, 0, 3 * p);
    }
  }

  lemma LineFront(p: nat, table: u64, lines: seq<Line>, rest: seq<nat>, last: nat, sources: seq<seq<byte>>, base: nat, at: nat)
    requires at + 3 * p <= Room(p, |rest|)
    ensures LineRecords(p, table, lines, rest + [last], sources, base)[at..at + 3 * p]
         == LineRecords(p, table, lines, rest, sources, base)[at..at + 3 * p]
  {
    assert (rest + [last])[..|rest|] == rest;
    hide Three, Relative, SourceOffset, Room;
  }

  lemma FourReadBack(p: nat, a: nat, b: nat, c: nat, d: nat)
    ensures var bytes := Three(p, a, b, c) + ToBytes(d, p);
            && ReadValue(p, bytes, 0) == a % Modulus(p) && ReadValue(p, bytes, p) == b % Modulus(p)
            && ReadValue(p, bytes, 2 * p) == c % Modulus(p) && ReadValue(p, bytes, 3 * p) == d % Modulus(p)
  {
    var front, last := Three(p, a, b, c), ToBytes(d, p);
    hide *;
    ThreeReadBack(p, a, b, c);
    ReadFront(p, front, last, 0);
    ReadFront(p, front, last, p);
    ReadFront(p, front, last, 2 * p);
    ReadLast(p, front, d);
  }

  lemma ReadFront(p: nat, front: seq<byte>, rest: seq<byte>, at: nat)
    requires at + p <= |front|
    ensures ReadValue(p, front + rest, at) == ReadValue(p, front, at)
  {
    SliceFront(front, rest, at, p);
  }

  lemma ReadLast(p: nat, front: seq<byte>, d: nat)
    ensures ReadValue(p, front + ToBytes(d, p), |front|) == d % Modulus(p)
  {
    SliceTail(front, ToBytes(d, p), 0, p);
    BytesRoundTrip(d, p);
    assert ToBytes(d, p)[0..p] == ToBytes(d, p);
  }

  lemma Within(s: seq<byte>, a: nat, b: nat, c: nat, d: nat)
    requires a <= b <= |s| && c <= d <= b - a
    ensures s[a..b][c..d] == s[a + c..a + d]
  {
    assert |s[a..b][c..d]| == |s[a + c..a + d]|;
    forall i | 0 <= i < d - c
      ensures s[a..b][c..d][i] == s[a + c..a + d][i]
    {
      assert s[a..b][c + i] == s[a + (c + i)];
    }
  }

  lemma NamesAppend(s: seq<Symbol>, recs: seq<Rec>, r: Rec)
    requires r.index < |s|
    ensures SymbolNames(s, recs + [r]) == SymbolNames(s, recs) + NameBytes(s[r.index].name)
  {
    assert (recs + [r])[..|recs|] == recs;
  }

  lemma RecordsAppend(p: nat, table: u64, s: seq<Symbol>, recs: seq<Rec>, r: Rec, names: nat)
    ensures SymbolRecords(p, table, s, recs + [r], names)
         == SymbolRecords(p, table, s, recs, names)
            + Three(p, Relative(r.start, table), Relative(r.end, table), names + |SymbolNames(s, recs)|)
  {
    assert (recs + [r])[..|recs|] == recs;
  }

  lemma LineAppend(p: nat, table: u64, lines: seq<Line>, picked: seq<nat>, i: nat, sources: seq<seq<byte>>, base: nat)
    requires i < |lines|
    ensures LineRecords(p, table, lines, picked + [i], sources, base)
         == LineRecords(p, table, lines, picked, sources, base)
            + Three(p, Relative(lines[i].address, table), SourceOffset(sources, base, lines[i].source), lines[i].line)
  {
    assert (picked + [i])[..|picked|] == picked;
  }

  /** The recorded functions are some of the symbols, so their names fit in the room of all names. */
  lemma {:induction false} NamesFit(s: seq<Symbol>, n: nat)
    requires n <= |s|
    ensures |Records(s, n).recs| <= n && |SymbolNames(s, Records(s, n).recs)| <= NamesRoom(s[..n])
  {
    if n > 0 {
      NamesFit(s, n - 1);
      assert s[..n][..n - 1] == s[..n - 1];
      var p := Records(s, n - 1);
      NamesAppend(s, p.recs, Rec(s[n - 1].address, ClippedEnd(s, n - 1), n - 1));
      hide ClippedEnd, Wraps;
    }
  }

  lemma {:induction false} RoomPrefix(s: seq<Symbol>, n: nat)
    requires n <= |s|
    ensures NamesRoom(s[..n]) <= NamesRoom(s)
    decreases |s|
  {
    if n < |s| {
      RoomPrefix(s[..|s| - 1], n);
      assert s[..|s| - 1][..n] == s[..n];
    } else {
      assert s[..n] == s;
    }
  }

  lemma {:induction false} LinesFit(lines: seq<Line>, n: nat)
    requires n <= |lines|
    ensures |LinesOf(lines, n).picked| <= n
  {
    if n > 0 {
      LinesFit(lines, n - 1);
    }
  }

  // ---- writing into the section ----

  function Overwritten(s: seq<byte>, at: nat, bytes: seq<byte>): (r: seq<byte>)
    requires at + |bytes| <= |s|
    ensures |r| == |s|
  {
    s[..at] + bytes + s[at + |bytes|..]
  }

  lemma Elsewhere(s: seq<byte>, at: nat, bytes: seq<byte>, lo: nat, hi: nat)
    requires at + |bytes| <= |s| && lo <= hi <= |s| && (hi <= at || at + |bytes| <= lo)
    ensures Overwritten(s, at, bytes)[lo..hi] == s[lo..hi]
  {
  }

  lemma Extends(s: seq<byte>, at: nat, bytes: seq<byte>, lo: nat)
    requires lo <= at && at + |bytes| <= |s|
    ensures Overwritten(s, at, bytes)[lo..at + |bytes|] == s[lo..at] + bytes
  {
  }

  function TotalSize(symbols: seq<Symbol>, sources: seq<seq<byte>>, lines: seq<Line>, p: nat): nat {
    4 * p + Room(p, |symbols|) + Room(p, |lines|) + NamesRoom(symbols) + |SourceNames(sources)|
  }

  function Capped(x: nat, sizeMax: nat): nat { if x > sizeMax then sizeMax else x }

  /** A sum that stays at the largest size once it would pass it. */
  method AddName(room: nat, name: seq<byte>, sizeMax: nat, ghost exact: nat) returns (sum: nat)
    requires room == Capped(exact, sizeMax)
    ensures sum == Capped(exact + NameRoom(name), sizeMax)
  {
    if |name| >= sizeMax || NameRoom(name) > sizeMax - room {
      return sizeMax;
    }
    sum := room + NameRoom(name);
  }

  /** The room for all names, or the largest size if that is not enough. */
  method AddNames(symbols: seq<Symbol>, sources: seq<seq<byte>>, sizeMax: nat) returns (room: nat)
    ensures room == Capped(NamesRoom(symbols) + |SourceNames(sources)|, sizeMax)
  {
    hide Capped;
    NoNames(sizeMax);
    room := 0;
    var i := 0;
    while i < |symbols|
      invariant 0 <= i <= |symbols| && room == Capped(NamesRoom(symbols[..i]), sizeMax)
    {
      assert symbols[..i + 1][..i] == symbols[..i];
      room := AddName(room, symbols[i].name, sizeMax, NamesRoom(symbols[..i]));
      i := i + 1;
    }
    assert symbols[..i] == symbols;
    var j := 0;
    while j < |sources|
      invariant 0 <= j <= |sources| && room == Capped(NamesRoom(symbols) + |SourceNames(sources[..j])|, sizeMax)
    {
      assert sources[..j + 1][..j] == sources[..j];
      room := AddName(room, sources[j], sizeMax, NamesRoom(symbols) + |SourceNames(sources[..j])|);
      j := j + 1;
    }
    assert sources[..j] == sources;
  }

  lemma NoNames(sizeMax: nat)
    ensures Capped(0, sizeMax) == 0
  {
  }

  lemma QuotientTest(n: nat, room: nat, record: nat)
    requires record > 0
    ensures n > room / record <==> n * record > room
  {
    DivMod(room, record);
    if n > room / record {
      MulMono(room / record + 1, n, record);
      assert (room / record + 1) * record == record * (room / record) + record;
    } else {
      MulMono(n, room / record, record);
    }
  }

  /** Whether the section has a size at all, found without an overflow on the way. */
  method SizeFits(symbols: seq<Symbol>, sources: seq<seq<byte>>, lines: seq<Line>, pointerSize: nat, sizeMax: nat)
    returns (fits: bool)
    requires (pointerSize == 2 || pointerSize == 4 || pointerSize == 8) && sizeMax >= 65535
    ensures fits <==> TotalSize(symbols, sources, lines, pointerSize) <= sizeMax
  {
    var names := AddNames(symbols, sources, sizeMax);
    hide NamesRoom, SourceNames, Room;
    RoomIs(pointerSize, |symbols|);
    RoomIs(pointerSize, |lines|);
    var header, record := 4 * pointerSize, 3 * pointerSize;
    if names > sizeMax - header {
      return false;
    }
    QuotientTest(|symbols|, sizeMax - header - names, record);
    if |symbols| > (sizeMax - header - names) / record {
      return false;
    }
    var lineRecords := header + |symbols| * record;
    QuotientTest(|lines|, sizeMax - lineRecords - names, record);
    fits := |lines| <= (sizeMax - lineRecords - names) / record;
  }

  /** There is no section when its size is beyond the host's, or beyond the addresses of a 16-bit target. */
  method LinkerStacktracePrepare(symbols: seq<Symbol>, sources: seq<seq<byte>>, lines: seq<Line>, pointerSize: nat,
                                 sizeMax: nat)
    returns (info: StacktraceInfo?)
    requires (pointerSize == 2 || pointerSize == 4 || pointerSize == 8) && sizeMax >= 65535
    ensures var size := TotalSize(symbols, sources, lines, pointerSize);
            info == null <==> size > sizeMax || (pointerSize == 2 && size > 65535)
    ensures info != null ==> info.Sized() && info.contents.Length == TotalSize(symbols, sources, lines, pointerSize)
    ensures info != null ==> info.symbols == symbols && info.sources == sources && info.lines == lines
    ensures info != null ==> info.pointerSize == pointerSize && fresh(info) && fresh(info.contents)
  {
    hide Room, NamesRoom, SourceNames;
    var fits := SizeFits(symbols, sources, lines, pointerSize, sizeMax);
    if !fits {
      return null;
    }
    info := new StacktraceInfo.Prepare(symbols, sources, lines, pointerSize);
    if pointerSize == 2 && info.contents.Length > 65535 {
      info := null;
    }
  }

  class StacktraceInfo {
    var symbols: seq<Symbol>
    const sources: seq<seq<byte>>
    var lines: seq<Line>
    const pointerSize: nat
    var contents: array<byte>
    var lineRecordsOffset: nat
    var namesOffset: nat

    predicate Sized()
      reads this
    {
      && lineRecordsOffset == 4 * pointerSize + Room(pointerSize, |symbols|)
      && namesOffset == lineRecordsOffset + Room(pointerSize, |lines|)
      && contents.Length == namesOffset + NamesRoom(symbols) + |SourceNames(sources)|
    }

    /** The size of the section is fixed. */
    constructor Prepare(symbols: seq<Symbol>, sources: seq<seq<byte>>, lines: seq<Line>, pointerSize: nat)
      requires pointerSize == 2 || pointerSize == 4 || pointerSize == 8
      ensures Sized() && this.symbols == symbols && this.sources == sources && this.lines == lines
      ensures this.pointerSize == pointerSize && fresh(contents)
    {
      this.symbols, this.sources, this.lines, this.pointerSize := symbols, sources, lines, pointerSize;
      RoomIs(pointerSize, |symbols|);
      RoomIs(pointerSize, |lines|);
      var recordSize := 3 * pointerSize;
      var lineRecords := 4 * pointerSize + |symbols| * recordSize;
      var names := lineRecords + |lines| * recordSize;
      lineRecordsOffset, namesOffset := lineRecords, names;
      var room := 0;
      var i := 0;
      while i < |symbols|
        invariant 0 <= i <= |symbols| && room == NamesRoom(symbols[..i])
      {
        assert symbols[..i + 1][..i] == symbols[..i];
        room := room + NameRoom(symbols[i].name);
        i := i + 1;
      }
      assert symbols[..i] == symbols;
      var j := 0;
      while j < |sources|
        invariant 0 <= j <= |sources| && room == NamesRoom(symbols) + |SourceNames(sources[..j])|
      {
        assert sources[..j + 1][..j] == sources[..j];
        room := room + NameRoom(sources[j]);
        j := j + 1;
      }
      assert sources[..j] == sources;
      contents := new byte[names + room](_ => 0);
    }

    method Put(at: nat, bytes: seq<byte>)
      requires at + |bytes| <= contents.Length
      modifies contents
      ensures contents[..] == Overwritten(old(contents[..]), at, bytes)
    {
      forall i | 0 <= i < |bytes| {
        contents[at + i] := bytes[i];
      }
      assert contents[..] == Overwritten(old(contents[..]), at, bytes);
    }

    /** Where the next function begins, if it is within the symbol. */
    method SymbolEnd(i: nat) returns (end: nat)
      requires i < |symbols|
      ensures end == ClippedEnd(symbols, i)
    {
      end := symbols[i].address + symbols[i].size;
      var next := i + 1;
      while next < |symbols|
        invariant i < next <= |symbols| && NextOther(symbols, i, i + 1) == NextOther(symbols, i, next)
        invariant end == symbols[i].address + symbols[i].size
      {
        if symbols[next].address != symbols[i].address {
          if symbols[next].address < end {
            end := symbols[next].address;
          }
          return;
        }
        next := next + 1;
      }
    }

    /** What the section holds when the first n symbols have been written. */
    ghost predicate SymbolsWritten(n: nat, table: u64, count: nat, cursor: nat)
      reads this, contents
    {
      && Sized() && n <= |symbols| && cursor + |SourceNames(sources)| <= contents.Length
      && FilledBy(Records(symbols, n).recs, table, contents[..], count, cursor)
    }

    /** The bytes hold these records and their names. */
    ghost predicate FilledBy(recs: seq<Rec>, table: u64, bytes: seq<byte>, count: nat, cursor: nat)
      reads this
    {
      && count == |recs| && 4 * pointerSize + Room(pointerSize, count) <= lineRecordsOffset <= namesOffset <= cursor <= |bytes|
      && RecordsFilled(recs, table, bytes, count) && NamesFilled(recs, bytes, cursor)
    }

    ghost predicate RecordsFilled(recs: seq<Rec>, table: u64, bytes: seq<byte>, count: nat)
      requires 4 * pointerSize + Room(pointerSize, count) <= |bytes|
      reads this
    {
      bytes[4 * pointerSize..4 * pointerSize + Room(pointerSize, count)]
      == SymbolRecords(pointerSize, table, symbols, recs, namesOffset)
    }

    ghost predicate NamesFilled(recs: seq<Rec>, bytes: seq<byte>, cursor: nat)
      requires namesOffset <= cursor <= |bytes|
      reads this
    {
      cursor == namesOffset + |SymbolNames(symbols, recs)| && bytes[namesOffset..cursor] == SymbolNames(symbols, recs)
    }

    lemma FilledNext(recs: seq<Rec>, r: Rec, table: u64, bytes: seq<byte>, count: nat, cursor: nat)
      requires FilledBy(recs, table, bytes, count, cursor) && r.index < |symbols|
      requires 4 * pointerSize + Room(pointerSize, count) + 3 * pointerSize <= lineRecordsOffset
      requires cursor + NameRoom(symbols[r.index].name) <= |bytes|
      ensures var record := Three(pointerSize, Relative(r.start, table), Relative(r.end, table), cursor);
              var name := NameBytes(symbols[r.index].name);
              var at := 4 * pointerSize + Room(pointerSize, count);
              && at + |record| <= |bytes|
              && FilledBy(recs + [r], table, Overwritten(Overwritten(bytes, at, record), cursor, name), count + 1, cursor + |name|)
    {
      hide *;
      var record := Three(pointerSize, Relative(r.start, table), Relative(r.end, table), cursor);
      var name := NameBytes(symbols[r.index].name);
      var at := 4 * pointerSize + Room(pointerSize, count);
      FilledParts(recs, table, bytes, count, cursor);
      var after := Overwritten(Overwritten(bytes, at, record), cursor, name);
      RecordAndName(bytes, at, record, cursor, name, 4 * pointerSize, namesOffset);
      RecordsMore(recs, r, table, bytes, after, count, cursor);
      NamesMore(recs, r, bytes, after, cursor);
      FilledJoin(recs + [r], table, after, count + 1, cursor + |name|);
    }

    lemma FilledParts(recs: seq<Rec>, table: u64, bytes: seq<byte>, count: nat, cursor: nat)
      requires FilledBy(recs, table, bytes, count, cursor)
      ensures count == |recs| && 4 * pointerSize + Room(pointerSize, count) <= lineRecordsOffset <= namesOffset <= cursor <= |bytes|
      ensures RecordsFilled(recs, table, bytes, count) && NamesFilled(recs, bytes, cursor)
    {
    }

    lemma FilledJoin(recs: seq<Rec>, table: u64, bytes: seq<byte>, count: nat, cursor: nat)
      requires count == |recs| && 4 * pointerSize + Room(pointerSize, count) <= lineRecordsOffset <= namesOffset <= cursor <= |bytes|
      requires RecordsFilled(recs, table, bytes, count) && NamesFilled(recs, bytes, cursor)
      ensures FilledBy(recs, table, bytes, count, cursor)
    {
    }

    lemma RecordsMore(recs: seq<Rec>, r: Rec, table: u64, bytes: seq<byte>, after: seq<byte>, count: nat, cursor: nat)
      requires 4 * pointerSize + Room(pointerSize, count) + 3 * pointerSize <= |bytes| == |after|
      requires RecordsFilled(recs, table, bytes, count) && namesOffset <= cursor <= |bytes| && NamesFilled(recs, bytes, cursor)
      requires var at := 4 * pointerSize + Room(pointerSize, count);
               after[4 * pointerSize..at + 3 * pointerSize]
               == bytes[4 * pointerSize..at] + Three(pointerSize, Relative(r.start, table), Relative(r.end, table), cursor)
      ensures Room(pointerSize, count + 1) == Room(pointerSize, count) + 3 * pointerSize
      ensures RecordsFilled(recs + [r], table, after, count + 1)
    {
      RecordsAppend(pointerSize, table, symbols, recs, r, namesOffset);
      hide SymbolRecords, SymbolNames, Three, Relative;
    }

    lemma NamesMore(recs: seq<Rec>, r: Rec, bytes: seq<byte>, after: seq<byte>, cursor: nat)
      requires namesOffset <= cursor <= |bytes| == |after| && NamesFilled(recs, bytes, cursor) && r.index < |symbols|
      requires var name := NameBytes(symbols[r.index].name);
               cursor + |name| <= |after| && after[namesOffset..cursor + |name|] == bytes[namesOffset..cursor] + name
      ensures NamesFilled(recs + [r], after, cursor + NameRoom(symbols[r.index].name))
    {
      NamesAppend(symbols, recs, r);
      hide SymbolNames, NameBytes;
    }

    lemma SymbolsFit(n: nat)
      requires Sized() && n <= |symbols|
      ensures var recs := Records(symbols, n).recs;
              && |recs| <= n && namesOffset + |SymbolNames(symbols, recs)| + |SourceNames(sources)| <= contents.Length
              && (n < |symbols| ==>
                    4 * pointerSize + Room(pointerSize, |recs|) + 3 * pointerSize <= lineRecordsOffset
                    && Room(pointerSize, |recs| + 1) == Room(pointerSize, |recs|) + 3 * pointerSize
                    && namesOffset + |SymbolNames(symbols, recs)| + NameRoom(symbols[n].name) + |SourceNames(sources)| <= contents.Length)
    {
      hide Records, SymbolNames;
      NamesFit(symbols, n);
      RoomPrefix(symbols, n);
      if n < |symbols| {
        RoomMono(pointerSize, |Records(symbols, n).recs|, |symbols|);
        RoomPrefix(symbols, n + 1);
        assert symbols[..n + 1][..n] == symbols[..n];
      }
    }

    /** Two writes: a record after the others, and a name after the others. */
    static lemma RecordAndName(s: seq<byte>, at: nat, record: seq<byte>, cursor: nat, name: seq<byte>, recordsAt: nat, namesAt: nat)
      requires recordsAt <= at && at + |record| <= namesAt <= cursor && cursor + |name| <= |s|
      ensures var t := Overwritten(Overwritten(s, at, record), cursor, name);
              && t[recordsAt..at + |record|] == s[recordsAt..at] + record
              && t[namesAt..cursor + |name|] == s[namesAt..cursor] + name
    {
      hide Overwritten;
      var u := Overwritten(s, at, record);
      Extends(s, at, record, recordsAt);
      Elsewhere(u, cursor, name, recordsAt, at + |record|);
      Elsewhere(s, at, record, namesAt, cursor);
      Extends(u, cursor, name, namesAt);
    }

    /** The record and the name of one function. */
    method WriteRecordAndName(i: nat, table: u64, count: nat, cursor: nat, ghost recs: seq<Rec>)
      requires i < |symbols| && FilledBy(recs, table, contents[..], count, cursor)
      requires 4 * pointerSize + Room(pointerSize, count) + 3 * pointerSize <= lineRecordsOffset
      requires cursor + NameRoom(symbols[i].name) <= contents.Length
      modifies contents
      ensures FilledBy(recs + [Rec(symbols[i].address, ClippedEnd(symbols, i), i)], table, contents[..], count + 1,
                       cursor + NameRoom(symbols[i].name))
    {
      hide *;
      var end := SymbolEnd(i);
      ghost var r := Rec(symbols[i].address, ClippedEnd(symbols, i), i);
      FilledNext(recs, r, table, contents[..], count, cursor);
      var record := Three(pointerSize, Relative(symbols[i].address, table), Relative(end, table), cursor);
      RoomIs(pointerSize, count);
      Put(4 * pointerSize + count * (3 * pointerSize), record);
      Put(cursor, NameBytes(symbols[i].name));
    }

    /** A function that is neither a rival of the last nor wraps. */
    method WriteSymbol(i: nat, table: u64, count: nat, cursor: nat) returns (next: nat)
      requires i < |symbols| && SymbolsWritten(i, table, count, cursor)
      requires symbols[i].address != Records(symbols, i).previous && !Wraps(symbols[i])
      modifies contents
      ensures SymbolsWritten(i + 1, table, count + 1, next) && Records(symbols, i + 1).previous == symbols[i].address
    {
      hide *;
      ghost var recs := Records(symbols, i).recs;
      AddedSymbol(i, table, count, cursor);
      WriteRecordAndName(i, table, count, cursor, recs);
      next := cursor + NameRoom(symbols[i].name);
      AddedIsWritten(i, table, count + 1, next);
    }

    method WriteSymbols(table: u64) returns (count: nat, cursor: nat)
      requires Sized()
      modifies contents
      ensures SymbolsWritten(|symbols|, table, count, cursor)
    {
      count, cursor := 0, namesOffset;
      var previous := TWO64 - 1;
      var i := 0;
      NothingWritten(table);
      hide *;
      while i < |symbols|
        invariant 0 <= i <= |symbols| && SymbolsWritten(i, table, count, cursor)
        invariant previous == Records(symbols, i).previous
      {
        if symbols[i].address == previous || Wraps(symbols[i]) {
          SkippedSymbol(i, table, count, cursor);
        } else {
          cursor := WriteSymbol(i, table, count, cursor);
          previous := symbols[i].address;
          count := count + 1;
        }
        i := i + 1;
      }
    }

    lemma NothingWritten(table: u64)
      requires Sized()
      ensures SymbolsWritten(0, table, 0, namesOffset) && Records(symbols, 0).previous == TWO64 - 1
    {
    }

    /** A function that gets a record has room for it and for its name. */
    lemma AddedSymbol(i: nat, table: u64, count: nat, cursor: nat)
      requires i < |symbols| && SymbolsWritten(i, table, count, cursor)
      requires symbols[i].address != Records(symbols, i).previous && !Wraps(symbols[i])
      ensures FilledBy(Records(symbols, i).recs, table, contents[..], count, cursor) && Sized()
      ensures 4 * pointerSize + Room(pointerSize, count) + 3 * pointerSize <= lineRecordsOffset
      ensures cursor + NameRoom(symbols[i].name) <= contents.Length
      ensures Records(symbols, i + 1).recs == Records(symbols, i).recs + [Rec(symbols[i].address, ClippedEnd(symbols, i), i)]
      ensures Records(symbols, i + 1).previous == symbols[i].address
    {
      SymbolsFit(i);
      hide ClippedEnd, Wraps, SymbolNames, SymbolRecords, Room, SourceNames, NamesRoom, RecordsFilled;
    }

    lemma SkippedSymbol(i: nat, table: u64, count: nat, cursor: nat)
      requires i < |symbols| && SymbolsWritten(i, table, count, cursor)
      requires symbols[i].address == Records(symbols, i).previous || Wraps(symbols[i])
      ensures SymbolsWritten(i + 1, table, count, cursor) && Records(symbols, i + 1) == Records(symbols, i)
    {
      hide ClippedEnd, Wraps, SymbolNames, SymbolRecords, FilledBy;
      assert Records(symbols, i + 1) == Records(symbols, i);
    }

    lemma AddedIsWritten(i: nat, table: u64, count: nat, cursor: nat)
      requires i < |symbols| && Sized() && FilledBy(Records(symbols, i + 1).recs, table, contents[..], count, cursor)
      ensures SymbolsWritten(i + 1, table, count, cursor)
    {
      SymbolsFit(i + 1);
      hide Records, SymbolNames, SymbolRecords, Room, SourceNames, NamesRoom;
    }

    /** The names of the sources follow those of the functions. */
    method WriteSources(base: nat) returns (offsets: seq<nat>)
      requires base + |SourceNames(sources)| <= contents.Length
      modifies contents
      ensures contents[..base] == old(contents[..base])
      ensures contents[base..base + |SourceNames(sources)|] == SourceNames(sources)
      ensures |offsets| == |sources| && forall k :: 0 <= k < |sources| ==> offsets[k] == SourceOffset(sources, base, k)
    {
      offsets := [];
      var cursor := base;
      var i := 0;
      while i < |sources|
        invariant 0 <= i <= |sources| && cursor == base + |SourceNames(sources[..i])| <= contents.Length
        invariant contents[..base] == old(contents[..base]) && contents[base..cursor] == SourceNames(sources[..i])
        invariant |offsets| == i && forall k :: 0 <= k < i ==> offsets[k] == SourceOffset(sources, base, k)
      {
        SourceNext(i);
        hide SourceNames, Overwritten;
        ghost var before := contents[..];
        assert before[base..cursor] == contents[base..cursor] && before[0..base] == contents[..base];
        Extends(before, cursor, NameBytes(sources[i]), base);
        Elsewhere(before, cursor, NameBytes(sources[i]), 0, base);
        offsets := offsets + [cursor];
        Put(cursor, NameBytes(sources[i]));
        ghost var after := contents[..];
        cursor := cursor + NameRoom(sources[i]);
        assert after[base..cursor] == contents[base..cursor] && after[0..base] == contents[..base];
        i := i + 1;
      }
      assert sources[..i] == sources;
    }

    lemma SourceNext(i: nat)
      requires i < |sources|
      ensures SourceNames(sources[..i + 1]) == SourceNames(sources[..i]) + NameBytes(sources[i])
      ensures |SourceNames(sources[..i + 1])| <= |SourceNames(sources)|
    {
      assert sources[..i + 1][..i] == sources[..i];
      SourcesPrefix(sources, i + 1);
    }

    static lemma {:induction false} SourcesPrefix(names: seq<seq<byte>>, n: nat)
      requires n <= |names|
      ensures |SourceNames(names[..n])| <= |SourceNames(names)|
      decreases |names|
    {
      if n < |names| {
        SourcesPrefix(names[..|names| - 1], n);
        assert names[..|names| - 1][..n] == names[..n];
      } else {
        assert names[..n] == names;
      }
    }

    /** The bytes hold the line records picked so far. */
    ghost predicate LinesFilled(picked: seq<nat>, table: u64, base: nat, bytes: seq<byte>)
      reads this
    {
      && lineRecordsOffset + Room(pointerSize, |picked|) <= |bytes|
      && bytes[lineRecordsOffset..lineRecordsOffset + Room(pointerSize, |picked|)]
         == LineRecords(pointerSize, table, lines, picked, sources, base)
    }

    lemma LinesMore(picked: seq<nat>, i: nat, table: u64, base: nat, bytes: seq<byte>)
      requires i < |lines| && LinesFilled(picked, table, base, bytes)
      requires lineRecordsOffset + Room(pointerSize, |picked|) + 3 * pointerSize <= |bytes|
      ensures var at := lineRecordsOffset + Room(pointerSize, |picked|);
              var record := Three(pointerSize, Relative(lines[i].address, table),
                                  SourceOffset(sources, base, lines[i].source), lines[i].line);
              LinesFilled(picked + [i], table, base, Overwritten(bytes, at, record))
    {
      hide *;
      var at := lineRecordsOffset + Room(pointerSize, |picked|);
      var record := Three(pointerSize, Relative(lines[i].address, table),
                          SourceOffset(sources, base, lines[i].source), lines[i].line);
      LineAppend(pointerSize, table, lines, picked, i, sources, base);
      RoomMono(pointerSize, |picked|, |picked| + 1);
      LinesParts(picked, table, base, bytes);
      Extends(bytes, at, record, lineRecordsOffset);
      LinesJoin(picked + [i], table, base, Overwritten(bytes, at, record));
    }

    lemma LinesParts(picked: seq<nat>, table: u64, base: nat, bytes: seq<byte>)
      requires LinesFilled(picked, table, base, bytes)
      ensures lineRecordsOffset + Room(pointerSize, |picked|) <= |bytes|
      ensures bytes[lineRecordsOffset..lineRecordsOffset + Room(pointerSize, |picked|)]
           == LineRecords(pointerSize, table, lines, picked, sources, base)
    {
    }

    lemma LinesJoin(picked: seq<nat>, table: u64, base: nat, bytes: seq<byte>)
      requires lineRecordsOffset + Room(pointerSize, |picked|) <= |bytes|
      requires bytes[lineRecordsOffset..lineRecordsOffset + Room(pointerSize, |picked|)]
            == LineRecords(pointerSize, table, lines, picked, sources, base)
      ensures LinesFilled(picked, table, base, bytes)
    {
    }

    /** The line records, between those of the functions and the names. */
    method WriteLines(table: u64, base: nat, offsets: seq<nat>) returns (count: nat)
      requires Sized() && |offsets| == |sources| && forall i :: 0 <= i < |lines| ==> lines[i].source < |sources|
      requires forall k :: 0 <= k < |sources| ==> offsets[k] == SourceOffset(sources, base, k)
      modifies contents
      ensures count == |LinesOf(lines, |lines|).picked| && LinesFilled(LinesOf(lines, |lines|).picked, table, base, contents[..])
      ensures contents[..lineRecordsOffset] == old(contents[..lineRecordsOffset])
      ensures contents[namesOffset..] == old(contents[namesOffset..])
    {
      count := 0;
      var previous: nat := TWO64 - 1;
      var i := 0;
      NoLines(table, base);
      hide *;
      while i < |lines|
        invariant 0 <= i <= |lines| && LinesWritten(i, table, base, count, previous, old(contents[..]))
      {
        var address := lines[i].address;
        if address != TWO64 - 1 && address != previous {
          AddedLine(i, table, base, count, previous, old(contents[..]));
          WriteLine(i, table, base, offsets[lines[i].source], count, LinesOf(lines, i).picked, old(contents[..]));
          previous := address;
          count := count + 1;
        } else {
          SkippedLine(i, table, base, count, previous, old(contents[..]));
        }
        i := i + 1;
      }
      LinesDone(table, base, count, previous, old(contents[..]));
    }

    /** What the section holds when the first n lines have been seen. */
    ghost predicate LinesWritten(n: nat, table: u64, base: nat, count: nat, previous: nat, before: seq<byte>)
      reads this, contents
    {
      && Sized() && n <= |lines| && |before| == contents.Length
      && count == |LinesOf(lines, n).picked| && previous == LinesOf(lines, n).previous
      && LinesFilled(LinesOf(lines, n).picked, table, base, contents[..])
      && contents[..lineRecordsOffset] == before[..lineRecordsOffset] && contents[namesOffset..] == before[namesOffset..]
    }

    lemma NoLines(table: u64, base: nat)
      requires Sized()
      ensures LinesWritten(0, table, base, 0, TWO64 - 1, contents[..])
    {
    }

    lemma SkippedLine(i: nat, table: u64, base: nat, count: nat, previous: nat, before: seq<byte>)
      requires i < |lines| && LinesWritten(i, table, base, count, previous, before)
      requires lines[i].address == TWO64 - 1 || lines[i].address == previous
      ensures LinesWritten(i + 1, table, base, count, previous, before)
    {
      hide LinesFilled, Room, NamesRoom, SourceNames;
      assert LinesOf(lines, i + 1) == LinesOf(lines, i);
    }

    lemma AddedLine(i: nat, table: u64, base: nat, count: nat, previous: nat, before: seq<byte>)
      requires i < |lines| && LinesWritten(i, table, base, count, previous, before)
      requires lines[i].address != TWO64 - 1 && lines[i].address != previous
      ensures Sized() && count == |LinesOf(lines, i).picked| && |before| == contents.Length
      ensures LinesFilled(LinesOf(lines, i).picked, table, base, contents[..])
      ensures LinesOf(lines, i + 1) == LineProgress(LinesOf(lines, i).picked + [i], lines[i].address)
      ensures contents[..lineRecordsOffset] == before[..lineRecordsOffset] && contents[namesOffset..] == before[namesOffset..]
    {
      hide LinesFilled, Room, NamesRoom, SourceNames;
    }

    lemma LinesDone(table: u64, base: nat, count: nat, previous: nat, before: seq<byte>)
      requires LinesWritten(|lines|, table, base, count, previous, before)
      ensures count == |LinesOf(lines, |lines|).picked| && LinesFilled(LinesOf(lines, |lines|).picked, table, base, contents[..])
      ensures contents[..lineRecordsOffset] == before[..lineRecordsOffset] && contents[namesOffset..] == before[namesOffset..]
    {
    }

    method WriteLine(i: nat, table: u64, base: nat, sourceOffset: nat, count: nat, ghost picked: seq<nat>,
                     ghost start: seq<byte>)
      requires Sized() && i < |lines| && count == |picked| && picked == LinesOf(lines, i).picked
      requires LinesOf(lines, i + 1) == LineProgress(picked + [i], lines[i].address) && |start| == contents.Length
      requires contents[..lineRecordsOffset] == start[..lineRecordsOffset] && contents[namesOffset..] == start[namesOffset..]
      requires LinesFilled(picked, table, base, contents[..]) && sourceOffset == SourceOffset(sources, base, lines[i].source)
      modifies contents
      ensures LinesWritten(i + 1, table, base, count + 1, lines[i].address, start)
    {
      hide LinesOf, LinesFilled, Room, SourceOffset, NamesRoom, SourceNames, Three, Relative, Overwritten;
      LinesFit(lines, i);
      RoomMono(pointerSize, count, |lines|);
      RoomIs(pointerSize, count);
      var at := lineRecordsOffset + count * (3 * pointerSize);
      var record := Three(pointerSize, Relative(lines[i].address, table), sourceOffset, lines[i].line);
      ghost var before := contents[..];
      LinesMore(picked, i, table, base, before);
      Elsewhere(before, at, record, 0, lineRecordsOffset);
      Elsewhere(before, at, record, namesOffset, contents.Length);
      assert before[0..lineRecordsOffset] == contents[..lineRecordsOffset] && before[namesOffset..contents.Length] == contents[namesOffset..];
      Put(at, record);
      ghost var after := contents[..];
      assert after[0..lineRecordsOffset] == contents[..lineRecordsOffset] && after[namesOffset..contents.Length] == contents[namesOffset..];
    }

    /** The counts of both kinds of record and where the lines and the names begin. */
    ghost predicate HeaderFilled(symbolCount: nat, lineCount: nat, bytes: seq<byte>)
      requires 4 * pointerSize <= |bytes|
      reads this
    {
      bytes[..4 * pointerSize] == ToBytes(symbolCount, pointerSize) + ToBytes(lineCount, pointerSize)
                                  + ToBytes(lineRecordsOffset, pointerSize) + ToBytes(namesOffset, pointerSize)
    }

    method WriteHeader(symbolCount: nat, lineCount: nat)
      requires 4 * pointerSize <= contents.Length
      modifies contents
      ensures HeaderFilled(symbolCount, lineCount, contents[..])
      ensures contents[4 * pointerSize..] == old(contents[4 * pointerSize..])
    {
      hide ToBytes;
      Put(0, ToBytes(symbolCount, pointerSize) + ToBytes(lineCount, pointerSize)
             + ToBytes(lineRecordsOffset, pointerSize) + ToBytes(namesOffset, pointerSize));
    }

    /** The whole section: header, function records, line records and names, each where it was given room. */
    ghost predicate Complete(table: u64)
      reads this, contents
    {
      && Sized()
      && var recs, picked := Records(symbols, |symbols|).recs, LinesOf(lines, |lines|).picked;
         var cursor := namesOffset + |SymbolNames(symbols, recs)|;
         && HeaderFilled(|recs|, |picked|, contents[..])
         && FilledBy(recs, table, contents[..], |recs|, cursor)
         && LinesFilled(picked, table, cursor, contents[..])
         && cursor + |SourceNames(sources)| <= contents.Length
         && contents[cursor..cursor + |SourceNames(sources)|] == SourceNames(sources)
    }

    /** What a reader finds in the header. */
    lemma HeaderReads(table: u64)
      requires Complete(table)
      ensures 4 * pointerSize <= contents.Length
      ensures ReadValue(pointerSize, contents[..], 0) == |Records(symbols, |symbols|).recs| % Modulus(pointerSize)
      ensures ReadValue(pointerSize, contents[..], pointerSize)
           == |LinesOf(lines, |lines|).picked| % Modulus(pointerSize)
      ensures ReadValue(pointerSize, contents[..], 2 * pointerSize) == lineRecordsOffset % Modulus(pointerSize)
      ensures ReadValue(pointerSize, contents[..], 3 * pointerSize) == namesOffset % Modulus(pointerSize)
    {
      var p, bytes := pointerSize, contents[..];
      var a, b := |Records(symbols, |symbols|).recs|, |LinesOf(lines, |lines|).picked|;
      HeaderIs(table);
      var header := Three(p, a, b, lineRecordsOffset) + ToBytes(namesOffset, p);
      assert bytes == header + bytes[4 * p..];
      hide *;
      FourReadBack(p, a, b, lineRecordsOffset, namesOffset);
      ReadFront(p, header, bytes[4 * p..], 0);
      ReadFront(p, header, bytes[4 * p..], p);
      ReadFront(p, header, bytes[4 * p..], 2 * p);
      ReadFront(p, header, bytes[4 * p..], 3 * p);
    }

    lemma HeaderIs(table: u64)
      requires Complete(table)
      ensures 4 * pointerSize <= contents.Length
      ensures contents[..4 * pointerSize]
           == Three(pointerSize, |Records(symbols, |symbols|).recs|, |LinesOf(lines, |lines|).picked|, lineRecordsOffset)
              + ToBytes(namesOffset, pointerSize)
    {
      hide ToBytes, Records, LinesOf;
    }

    /** What a reader finds in function record k, after the header. */
    lemma FunctionReads(table: u64, k: nat)
      requires Complete(table) && k < |Records(symbols, |symbols|).recs|
      ensures var recs, at := Records(symbols, |symbols|).recs, 4 * pointerSize + Room(pointerSize, k);
              && at + 3 * pointerSize <= lineRecordsOffset <= contents.Length
              && contents[..][at..at + 3 * pointerSize]
                 == Three(pointerSize, Relative(recs[k].start, table), Relative(recs[k].end, table),
                          namesOffset + |SymbolNames(symbols, recs[..k])|)
    {
      hide *;
      var recs, p := Records(symbols, |symbols|).recs, pointerSize;
      RecordsAndNames(table);
      RecordAt(p, table, symbols, recs, namesOffset, k);
      Within(contents[..], 4 * p, 4 * p + Room(p, |recs|), Room(p, k), Room(p, k) + 3 * p);
    }

    /** And where that record says, the name with a zero behind it. */
    lemma NameReads(table: u64, k: nat)
      requires Complete(table) && k < |Records(symbols, |symbols|).recs| && Records(symbols, |symbols|).recs[k].index < |symbols|
      ensures var recs := Records(symbols, |symbols|).recs;
              var at, name := namesOffset + |SymbolNames(symbols, recs[..k])|, symbols[recs[k].index].name;
              at + |name| + 1 <= contents.Length && contents[..][at..at + |name| + 1] == name + [0]
    {
      hide *;
      var recs := Records(symbols, |symbols|).recs;
      RecordsAndNames(table);
      NameAt(symbols, recs, k);
      var name, before := symbols[recs[k].index].name, |SymbolNames(symbols, recs[..k])|;
      Within(contents[..], namesOffset, namesOffset + |SymbolNames(symbols, recs)|, before, before + |name| + 1);
    }

    lemma RecordsAndNames(table: u64)
      requires Complete(table)
      ensures var recs := Records(symbols, |symbols|).recs;
              var cursor := namesOffset + |SymbolNames(symbols, recs)|;
              && 4 * pointerSize + Room(pointerSize, |recs|) <= lineRecordsOffset <= namesOffset <= cursor <= contents.Length
              && contents[..][4 * pointerSize..4 * pointerSize + Room(pointerSize, |recs|)]
                 == SymbolRecords(pointerSize, table, symbols, recs, namesOffset)
              && contents[..][namesOffset..cursor] == SymbolNames(symbols, recs)
    {
      hide Records, LinesOf, SymbolNames, SymbolRecords, Room, Three;
    }

    /** Filling the section never goes beyond the size fixed for it, and puts everything in its place. */
    method Finalize(table: u64)
      requires Sized() && forall i :: 0 <= i < |lines| ==> lines[i].source < |sources|
      modifies this`symbols, this`lines, contents
      ensures symbols == SortSymbols(old(symbols)) && lines == SortLines(old(lines)) && Sorted(symbols) && LinesSorted(lines)
      ensures Complete(table)
    {
      hide *;
      SortSorts(symbols);
      SortLinesSorts(lines);
      SourcesOfSorted(lines);
      SizedSorted();
      symbols := SortSymbols(symbols);
      lines := SortLines(lines);
      Fill(table);
    }

    lemma SizedSorted()
      requires Sized()
      ensures Room(pointerSize, |SortSymbols(symbols)|) == Room(pointerSize, |symbols|)
      ensures lineRecordsOffset == 4 * pointerSize + Room(pointerSize, |SortSymbols(symbols)|)
      ensures namesOffset == lineRecordsOffset + Room(pointerSize, |SortLines(lines)|)
      ensures contents.Length == namesOffset + NamesRoom(SortSymbols(symbols)) + |SourceNames(sources)|
    {
      hide Room, NamesRoom, SourceNames, SortSymbols, SortLines;
    }

    /** The fill pass over what has been sorted. */
    method Fill(table: u64)
      requires lineRecordsOffset == 4 * pointerSize + Room(pointerSize, |symbols|)
      requires namesOffset == lineRecordsOffset + Room(pointerSize, |lines|)
      requires contents.Length == namesOffset + NamesRoom(symbols) + |SourceNames(sources)|
      requires forall i :: 0 <= i < |lines| ==> lines[i].source < |sources|
      modifies contents
      ensures Complete(table)
    {
      assert Sized();
      hide *;
      var symbolCount, cursor := WriteSymbols(table);
      WrittenSymbols(table, symbolCount, cursor);
      ghost var recs, bytes := Records(symbols, |symbols|).recs, contents[..];
      var offsets := WriteSources(cursor);
      AfterSources(recs, table, bytes, contents[..], symbolCount, cursor);
      bytes := contents[..];
      assert bytes[cursor..cursor + |SourceNames(sources)|] == SourceNames(sources);
      var lineCount := WriteLines(table, cursor, offsets);
      AfterLines(recs, table, bytes, contents[..], symbolCount, cursor);
      bytes := contents[..];
      WriteHeader(symbolCount, lineCount);
      AfterHeader(recs, LinesOf(lines, |lines|).picked, table, bytes, contents[..], symbolCount, cursor);
      AllComplete(table, symbolCount, lineCount, cursor);
    }

    lemma AfterSources(recs: seq<Rec>, table: u64, before: seq<byte>, after: seq<byte>, count: nat, cursor: nat)
      requires FilledBy(recs, table, before, count, cursor) && |before| == |after| && cursor <= |before|
      requires after[..cursor] == before[..cursor]
      ensures FilledBy(recs, table, after, count, cursor)
    {
      hide RecordsFilled, NamesFilled, Room;
      SameHead(before, after, cursor, 4 * pointerSize, lineRecordsOffset);
      SameHead(before, after, cursor, namesOffset, cursor);
      FilledStays(recs, table, before, after, count, cursor);
    }

    lemma AfterLines(recs: seq<Rec>, table: u64, before: seq<byte>, after: seq<byte>, count: nat, cursor: nat)
      requires FilledBy(recs, table, before, count, cursor) && |before| == |after| && lineRecordsOffset <= namesOffset <= |before|
      requires after[..lineRecordsOffset] == before[..lineRecordsOffset] && after[namesOffset..] == before[namesOffset..]
      requires cursor + |SourceNames(sources)| <= |before|
      requires before[cursor..cursor + |SourceNames(sources)|] == SourceNames(sources)
      ensures FilledBy(recs, table, after, count, cursor)
      ensures after[cursor..cursor + |SourceNames(sources)|] == SourceNames(sources)
    {
      hide RecordsFilled, NamesFilled, Room, SourceNames;
      var p, n := 4 * pointerSize, |SourceNames(sources)|;
      SameHead(before, after, lineRecordsOffset, p, lineRecordsOffset);
      SameTail(before, after, namesOffset, namesOffset, cursor);
      SameTail(before, after, namesOffset, cursor, cursor + n);
      FilledStays(recs, table, before, after, count, cursor);
    }

    lemma AfterHeader(recs: seq<Rec>, picked: seq<nat>, table: u64, before: seq<byte>, after: seq<byte>, count: nat, cursor: nat)
      requires FilledBy(recs, table, before, count, cursor) && |before| == |after| && 4 * pointerSize <= |before|
      requires after[4 * pointerSize..] == before[4 * pointerSize..] && LinesFilled(picked, table, cursor, before)
      requires cursor + |SourceNames(sources)| <= |before|
      requires before[cursor..cursor + |SourceNames(sources)|] == SourceNames(sources)
      ensures FilledBy(recs, table, after, count, cursor) && LinesFilled(picked, table, cursor, after)
      ensures after[cursor..cursor + |SourceNames(sources)|] == SourceNames(sources)
    {
      hide RecordsFilled, NamesFilled, Room, SourceNames, LineRecords;
      var p, n := 4 * pointerSize, |SourceNames(sources)|;
      SameTail(before, after, p, p, lineRecordsOffset);
      SameTail(before, after, p, namesOffset, cursor);
      SameTail(before, after, p, cursor, cursor + n);
      SameTail(before, after, p, lineRecordsOffset, lineRecordsOffset + Room(pointerSize, |picked|));
      FilledStays(recs, table, before, after, count, cursor);
    }

    static lemma SameHead(a: seq<byte>, b: seq<byte>, p: nat, lo: nat, hi: nat)
      requires lo <= hi <= p <= |a| == |b| && a[..p] == b[..p]
      ensures a[lo..hi] == b[lo..hi]
    {
      forall i | lo <= i < hi
        ensures a[i] == b[i]
      {
        assert a[i] == a[..p][i] && b[i] == b[..p][i];
      }
    }

    static lemma SameTail(a: seq<byte>, b: seq<byte>, p: nat, lo: nat, hi: nat)
      requires p <= lo <= hi <= |a| == |b| && a[p..] == b[p..]
      ensures a[lo..hi] == b[lo..hi]
    {
      forall i | lo <= i < hi
        ensures a[i] == b[i]
      {
        assert a[i] == a[p..][i - p] && b[i] == b[p..][i - p];
      }
    }

    lemma AllComplete(table: u64, count: nat, lineCount: nat, cursor: nat)
      requires Sized() && FilledBy(Records(symbols, |symbols|).recs, table, contents[..], count, cursor)
      requires lineCount == |LinesOf(lines, |lines|).picked| && 4 * pointerSize <= contents.Length
      requires LinesFilled(LinesOf(lines, |lines|).picked, table, cursor, contents[..])
      requires HeaderFilled(count, lineCount, contents[..])
      requires cursor == namesOffset + |SymbolNames(symbols, Records(symbols, |symbols|).recs)|
      requires cursor + |SourceNames(sources)| <= contents.Length
      requires contents[cursor..cursor + |SourceNames(sources)|] == SourceNames(sources)
      ensures Complete(table)
    {
      hide RecordsFilled, NamesFilled, Room, SourceNames, LinesFilled, Records, LinesOf, SymbolNames, NamesRoom;
    }

    lemma SourcesOfSorted(s: seq<Line>)
      requires forall i :: 0 <= i < |s| ==> s[i].source < |sources|
      ensures forall i :: 0 <= i < |s| ==> SortLines(s)[i].source < |sources|
    {
      forall i | 0 <= i < |s|
        ensures SortLines(s)[i].source < |sources|
      {
        assert SortLines(s)[i] in multiset(s);
      }
    }

    lemma WrittenSymbols(table: u64, count: nat, cursor: nat)
      requires SymbolsWritten(|symbols|, table, count, cursor)
      ensures FilledBy(Records(symbols, |symbols|).recs, table, contents[..], count, cursor)
      ensures count == |Records(symbols, |symbols|).recs| && Sized()
      ensures cursor == namesOffset + |SymbolNames(symbols, Records(symbols, |symbols|).recs)|
      ensures cursor + |SourceNames(sources)| <= contents.Length
    {
    }

    /** Writes elsewhere leave the function records and their names alone. */
    lemma FilledStays(recs: seq<Rec>, table: u64, before: seq<byte>, after: seq<byte>, count: nat, cursor: nat)
      requires FilledBy(recs, table, before, count, cursor) && |before| == |after|
      requires 4 * pointerSize <= lineRecordsOffset <= namesOffset <= cursor <= |before|
      requires before[4 * pointerSize..lineRecordsOffset] == after[4 * pointerSize..lineRecordsOffset]
      requires before[namesOffset..cursor] == after[namesOffset..cursor]
      ensures FilledBy(recs, table, after, count, cursor)
    {
      hide SymbolRecords, SymbolNames, Room;
      var p, n := 4 * pointerSize, Room(pointerSize, count);
      assert before[p..p + n] == before[p..lineRecordsOffset][..n];
      assert after[p..p + n] == after[p..lineRecordsOffset][..n];
    }
  }
}
