/**
 The stack-trace table: function records made from the sorted symbols, line records made
 from the sorted lines, and what looking an address up in the table finds.
 */
module StackTrace {
  import opened LittleEndian
  import opened Words

  /** A function of nonzero size, as CollectSymbolBucket admits it. */
  type Symbol = s: SymbolFields | s.size > 0 witness SymbolFields(0, 1, [])

  datatype SymbolFields = SymbolFields(address: u64, size: u64, name: seq<byte>)

  datatype Line = Line(address: u64, line: nat, source: nat)

  // ---- the order the library sorts into ----

  /** Symbols by address, the larger first; names only break ties between equals. */
  predicate InOrder(a: Symbol, b: Symbol) {
    a.address < b.address || (a.address == b.address && a.size >= b.size)
  }

  predicate Sorted(s: seq<Symbol>) {
    forall i, j :: 0 <= i <= j < |s| ==> InOrder(s[i], s[j])
  }

  predicate LinesSorted(s: seq<Line>) {
    forall i, j :: 0 <= i <= j < |s| ==> s[i].address <= s[j].address
  }

  // ---- function records ----

  /** A record covers start up to end; index is the symbol it is made from. */
  datatype Rec = Rec(start: nat, end: nat, index: nat)

  datatype Progress = Progress(recs: seq<Rec>, previous: nat)

  /** The first symbol after i with another address, or the number of symbols. */
  function NextOther(s: seq<Symbol>, i: nat, j: nat): (r: nat)
    requires i < j <= |s|
    ensures j <= r <= |s| && (r < |s| ==> s[r].address != s[i].address)
    ensures forall k :: j <= k < r ==> s[k].address == s[i].address
    decreases |s| - j
  {
    if j == |s| || s[j].address != s[i].address then j else NextOther(s, i, j + 1)
  }

  /** The end of a symbol, cut where the next function begins. */
  function ClippedEnd(s: seq<Symbol>, i: nat): nat
    requires i < |s|
  {
    var end, next := s[i].address + s[i].size, NextOther(s, i, i + 1);
    if next < |s| && s[next].address < end then s[next].address else end
  }

  /** The symbol reaches past the end of the address space, so that its end wraps. */
  predicate Wraps(a: Symbol) { a.address + a.size >= TWO64 }

  /** A symbol at the address of the last record, or one that wraps, gets no record. */
  function Next(s: seq<Symbol>, i: nat, p: Progress): Progress
    requires i < |s|
  {
    if s[i].address == p.previous || Wraps(s[i]) then p
    else Progress(p.recs + [Rec(s[i].address, ClippedEnd(s, i), i)], s[i].address)
  }

  /** The records of the first n symbols, and the address of the last one. */
  function Records(s: seq<Symbol>, n: nat): Progress
    requires n <= |s|
  {
    if n == 0 then Progress([], TWO64 - 1) else Next(s, n - 1, Records(s, n - 1))
  }

  lemma ClipMeaning(s: seq<Symbol>, i: nat)
    requires i < |s| && Sorted(s)
    ensures s[i].address < ClippedEnd(s, i) <= s[i].address + s[i].size
    ensures forall j :: 0 <= j < |s| && s[j].address > s[i].address ==> ClippedEnd(s, i) <= s[j].address
    ensures ClippedEnd(s, i) == s[i].address + s[i].size ||
            exists j :: 0 <= j < |s| && s[j].address == ClippedEnd(s, i)
  {
    var next := NextOther(s, i, i + 1);
    forall j | 0 <= j <= i
      ensures s[j].address <= s[i].address
    {
      assert InOrder(s[j], s[i]);
    }
    forall j | 0 <= j < |s| && s[j].address > s[i].address
      ensures next < |s| && s[next].address <= s[j].address
    {
      assert next <= j ==> InOrder(s[next], s[j]);
    }
    assert next < |s| ==> InOrder(s[i], s[next]);
  }

  predicate AllOk(s: seq<Symbol>, n: nat, recs: seq<Rec>)
    requires n <= |s|
  {
    forall k :: 0 <= k < |recs| ==> RecordOk(s, n, recs[k])
  }

  predicate Increasing(recs: seq<Rec>) {
    forall k, l :: 0 <= k < l < |recs| ==> recs[k].start < recs[l].start && recs[k].index < recs[l].index
  }

  predicate Remembered(p: Progress) {
    if p.recs == [] then p.previous == TWO64 - 1 else p.previous == p.recs[|p.recs| - 1].start
  }

  ghost predicate AllCovered(s: seq<Symbol>, n: nat, recs: seq<Rec>)
    requires n <= |s|
  {
    forall j :: 0 <= j < n && !Wraps(s[j]) ==> Covered(s, recs, j)
  }

  /** What the records of the first n symbols are. */
  ghost predicate RecordsOk(s: seq<Symbol>, n: nat, p: Progress)
    requires n <= |s|
  {
    AllOk(s, n, p.recs) && Increasing(p.recs) && Remembered(p) && AllCovered(s, n, p.recs)
  }

  predicate RecordOk(s: seq<Symbol>, n: nat, r: Rec)
    requires n <= |s|
  {
    r.index < n && r.start == s[r.index].address && r.end == ClippedEnd(s, r.index) && !Wraps(s[r.index])
  }

  /** The address of symbol j has a record, made from a symbol at least as large. */
  ghost predicate Covered(s: seq<Symbol>, recs: seq<Rec>, j: nat)
    requires j < |s|
  {
    exists k :: 0 <= k < |recs| && recs[k].start == s[j].address && recs[k].index < |s|
                && s[recs[k].index].size >= s[j].size
  }

  lemma RecordsStep(s: seq<Symbol>, n: nat)
    requires n <= |s|
    ensures n == 0 ==> RecordsOk(s, n, Records(s, n))
    ensures n > 0 ==> Records(s, n) == Next(s, n - 1, Records(s, n - 1))
  {
    hide ClippedEnd, Wraps;
  }

  lemma {:induction false} RecordsAre(s: seq<Symbol>, n: nat)
    requires n <= |s| && Sorted(s)
    ensures RecordsOk(s, n, Records(s, n))
  {
    hide *;
    RecordsStep(s, n);
    if n > 0 {
      RecordsAre(s, n - 1);
      RecordsNext(s, n - 1, Records(s, n - 1));
    }
  }

  lemma RecordsNext(s: seq<Symbol>, i: nat, p: Progress)
    requires i < |s| && Sorted(s) && RecordsOk(s, i, p)
    ensures RecordsOk(s, i + 1, Next(s, i, p))
  {
    if !Wraps(s[i]) && s[i].address != p.previous {
      AddsRecord(s, i, p);
    } else {
      assert Next(s, i, p) == p;
      if !Wraps(s[i]) {
        RivalCovered(s, i, p);
      }
      hide AllOk, Increasing, AllCovered, Covered, Wraps, Remembered, Next;
      StillRecords(s, i, p.recs);
      StillCovered(s, i, p.recs);
    }
  }

  lemma StillRecords(s: seq<Symbol>, i: nat, recs: seq<Rec>)
    requires i < |s| && AllOk(s, i, recs)
    ensures AllOk(s, i + 1, recs)
  {
    hide ClippedEnd;
    forall k | 0 <= k < |recs|
      ensures RecordOk(s, i + 1, recs[k])
    {
      assert RecordOk(s, i, recs[k]);
    }
  }

  lemma StillCovered(s: seq<Symbol>, i: nat, recs: seq<Rec>)
    requires i < |s| && AllCovered(s, i, recs) && (Wraps(s[i]) || Covered(s, recs, i))
    ensures AllCovered(s, i + 1, recs)
  {
    hide Covered, Wraps;
  }

  /** A symbol at the address of the last record is no larger than its symbol. */
  lemma RivalCovered(s: seq<Symbol>, i: nat, p: Progress)
    requires i < |s| && Sorted(s) && AllOk(s, i, p.recs) && Remembered(p) && s[i].address == p.previous && !Wraps(s[i])
    ensures Covered(s, p.recs, i)
  {
    hide ClippedEnd;
    var r := p.recs[|p.recs| - 1];
    assert RecordOk(s, i, r);
    assert InOrder(s[r.index], s[i]);
  }

  lemma AddsRecord(s: seq<Symbol>, i: nat, p: Progress)
    requires i < |s| && Sorted(s) && RecordsOk(s, i, p) && s[i].address != p.previous && !Wraps(s[i])
    ensures RecordsOk(s, i + 1, Next(s, i, p))
  {
    var r := Rec(s[i].address, ClippedEnd(s, i), i);
    assert Next(s, i, p) == Progress(p.recs + [r], s[i].address);
    assert RecordOk(s, i + 1, r);
    hide AllOk, Increasing, AllCovered, Covered, Wraps, ClippedEnd, RecordOk, Next;
    StillRecords(s, i, p.recs);
    LaterThanAll(s, i, p);
    RecordAppended(s, i, p.recs, r);
    IncreasingAppended(p.recs, r);
  }

  lemma RecordAppended(s: seq<Symbol>, i: nat, recs: seq<Rec>, r: Rec)
    requires i < |s| && AllOk(s, i + 1, recs) && RecordOk(s, i + 1, r) && AllCovered(s, i, recs)
    requires r.start == s[i].address && r.index == i
    ensures AllOk(s, i + 1, recs + [r]) && AllCovered(s, i + 1, recs + [r])
  {
    hide RecordOk, Covered, Wraps;
    forall j | 0 <= j < i + 1 && !Wraps(s[j])
      ensures Covered(s, recs + [r], j)
    {
      CoveredStill(s, recs, r, j);
    }
  }

  lemma IncreasingAppended(recs: seq<Rec>, r: Rec)
    requires Increasing(recs) && forall k :: 0 <= k < |recs| ==> recs[k].start < r.start && recs[k].index < r.index
    ensures Increasing(recs + [r])
  {
  }

  lemma LaterThanAll(s: seq<Symbol>, i: nat, p: Progress)
    requires i < |s| && Sorted(s) && AllOk(s, i, p.recs) && Increasing(p.recs) && Remembered(p) && s[i].address != p.previous
    ensures forall k :: 0 <= k < |p.recs| ==> p.recs[k].start < s[i].address && p.recs[k].index < i
  {
    hide ClippedEnd, Wraps;
    if p.recs != [] {
      var last := p.recs[|p.recs| - 1];
      assert RecordOk(s, i, last);
      assert InOrder(s[last.index], s[i]);
      forall k | 0 <= k < |p.recs|
        ensures p.recs[k].start < s[i].address && p.recs[k].index < i
      {
        assert RecordOk(s, i, p.recs[k]);
      }
    }
  }

  lemma CoveredStill(s: seq<Symbol>, recs: seq<Rec>, r: Rec, j: nat)
    requires j < |s| && (Covered(s, recs, j) || (r.start == s[j].address && r.index == j))
    ensures Covered(s, recs + [r], j)
  {
    var all := recs + [r];
    if Covered(s, recs, j) {
      var k :| 0 <= k < |recs| && recs[k].start == s[j].address && recs[k].index < |s| && s[recs[k].index].size >= s[j].size;
      assert all[k] == recs[k];
    } else {
      assert all[|recs|] == r;
    }
  }

  /** The records begin at strictly increasing addresses, are not empty, and do not overlap. */
  lemma RecordsDisjoint(s: seq<Symbol>, k: nat, l: nat)
    requires Sorted(s) && k < l < |Records(s, |s|).recs|
    ensures var recs := Records(s, |s|).recs;
            recs[k].start < recs[k].end <= recs[l].start < recs[l].end
  {
    RecordsAre(s, |s|);
    var recs := Records(s, |s|).recs;
    hide Records, ClippedEnd;
    assert RecordOk(s, |s|, recs[k]) && RecordOk(s, |s|, recs[l]);
    ClipMeaning(s, recs[k].index);
    ClipMeaning(s, recs[l].index);
  }

  /** An address is in a record exactly when that record's function is the last to begin before it, and reaches it. */
  lemma LookupMeaning(s: seq<Symbol>, k: nat, pc: nat)
    requires Sorted(s) && k < |Records(s, |s|).recs|
    ensures var r := Records(s, |s|).recs[k];
            && r.index < |s|
            && (r.start <= pc < r.end <==>
                  && r.start <= pc < r.start + s[r.index].size
                  && forall j :: 0 <= j < |s| && s[j].address <= pc ==> s[j].address <= r.start)
  {
    RecordsAre(s, |s|);
    var recs := Records(s, |s|).recs;
    hide Records, ClippedEnd;
    assert RecordOk(s, |s|, recs[k]);
    ClipMeaning(s, recs[k].index);
  }

  /** Every function that does not wrap has a record at its address, made from the largest of its rivals. */
  lemma EveryFunctionRecorded(s: seq<Symbol>, j: nat)
    requires Sorted(s) && j < |s| && !Wraps(s[j])
    ensures exists k :: 0 <= k < |Records(s, |s|).recs| && Records(s, |s|).recs[k].start == s[j].address
                        && Records(s, |s|).recs[k].index < |s|
                        && s[Records(s, |s|).recs[k].index].size >= s[j].size
  {
    RecordsAre(s, |s|);
    hide Records, ClippedEnd;
    assert Covered(s, Records(s, |s|).recs, j);
  }

  // ---- line records ----

  datatype LineProgress = LineProgress(picked: seq<nat>, previous: nat)

  /** One record for each address, and none at the last address of all. */
  function NextLine(lines: seq<Line>, i: nat, p: LineProgress): LineProgress
    requires i < |lines|
  {
    if lines[i].address == TWO64 - 1 || lines[i].address == p.previous then p
    else LineProgress(p.picked + [i], lines[i].address)
  }

  /** The lines that get a record, of the first n. */
  function LinesOf(lines: seq<Line>, n: nat): LineProgress
    requires n <= |lines|
  {
    if n == 0 then LineProgress([], TWO64 - 1) else NextLine(lines, n - 1, LinesOf(lines, n - 1))
  }

  predicate LinesRise(lines: seq<Line>, n: nat, picked: seq<nat>)
    requires n <= |lines|
  {
    && |picked| <= n && (forall k :: 0 <= k < |picked| ==> picked[k] < n)
    && (forall k, l :: 0 <= k < l < |picked| ==> lines[picked[k]].address < lines[picked[l]].address)
  }

  predicate LineRemembered(lines: seq<Line>, n: nat, p: LineProgress)
    requires n <= |lines| && LinesRise(lines, n, p.picked)
  {
    if p.picked == [] then p.previous == TWO64 - 1 else p.previous == lines[p.picked[|p.picked| - 1]].address
  }

  predicate LinesKept(lines: seq<Line>, n: nat, picked: seq<nat>)
    requires n <= |lines|
  {
    forall j :: 0 <= j < n && lines[j].address != TWO64 - 1 ==> LineKept(lines, picked, j)
  }

  predicate LinesOk(lines: seq<Line>, n: nat, p: LineProgress)
    requires n <= |lines|
  {
    LinesRise(lines, n, p.picked) && LineRemembered(lines, n, p) && LinesKept(lines, n, p.picked)
  }

  predicate LineKept(lines: seq<Line>, picked: seq<nat>, j: nat)
    requires j < |lines|
  {
    exists k :: 0 <= k < |picked| && picked[k] < |lines| && lines[picked[k]].address == lines[j].address
  }

  lemma LineKeptStill(lines: seq<Line>, picked: seq<nat>, i: nat, j: nat)
    requires j < |lines| && (LineKept(lines, picked, j) || i == j)
    ensures LineKept(lines, picked + [i], j)
  {
    var all := picked + [i];
    if LineKept(lines, picked, j) {
      var k :| 0 <= k < |picked| && picked[k] < |lines| && lines[picked[k]].address == lines[j].address;
      assert all[k] == picked[k];
    } else {
      assert all[|picked|] == i;
    }
  }

  lemma LinesStep(lines: seq<Line>, n: nat)
    requires n <= |lines|
    ensures n == 0 ==> LinesOk(lines, n, LinesOf(lines, n))
    ensures n > 0 ==> LinesOf(lines, n) == NextLine(lines, n - 1, LinesOf(lines, n - 1))
  {
  }

  /** The line records are at strictly increasing addresses, and every address with a line has one. */
  lemma {:induction false} LinesAre(lines: seq<Line>, n: nat)
    requires n <= |lines| && LinesSorted(lines)
    ensures LinesOk(lines, n, LinesOf(lines, n))
  {
    hide *;
    LinesStep(lines, n);
    if n > 0 {
      LinesAre(lines, n - 1);
      LinesNext(lines, n - 1, LinesOf(lines, n - 1));
    }
  }

  lemma LinesNext(lines: seq<Line>, i: nat, p: LineProgress)
    requires i < |lines| && LinesSorted(lines) && LinesOk(lines, i, p)
    ensures LinesOk(lines, i + 1, NextLine(lines, i, p))
  {
    var q := NextLine(lines, i, p);
    if q == p {
      RiseStill(lines, i, p.picked);
      if lines[i].address != TWO64 - 1 {
        LastKeeps(lines, i, p);
      }
      KeptSkipped(lines, i, p.picked);
      hide LinesRise, LinesKept, LineKept;
    } else {
      LineRises(lines, i, p);
      KeptAdded(lines, i, p.picked);
      hide LinesRise, LinesKept, LineKept;
    }
  }

  lemma RiseStill(lines: seq<Line>, i: nat, picked: seq<nat>)
    requires i < |lines| && LinesRise(lines, i, picked)
    ensures LinesRise(lines, i + 1, picked)
  {
  }

  lemma LastKeeps(lines: seq<Line>, i: nat, p: LineProgress)
    requires i < |lines| && LinesRise(lines, i, p.picked) && LineRemembered(lines, i, p)
    requires lines[i].address == p.previous != TWO64 - 1
    ensures LineKept(lines, p.picked, i)
  {
    var last := |p.picked| - 1;
    assert lines[p.picked[last]].address == lines[i].address;
  }

  lemma KeptSkipped(lines: seq<Line>, i: nat, picked: seq<nat>)
    requires i < |lines| && LinesKept(lines, i, picked) && (lines[i].address == TWO64 - 1 || LineKept(lines, picked, i))
    ensures LinesKept(lines, i + 1, picked)
  {
    hide LineKept;
  }

  lemma KeptAdded(lines: seq<Line>, i: nat, picked: seq<nat>)
    requires i < |lines| && LinesKept(lines, i, picked)
    ensures LinesKept(lines, i + 1, picked + [i])
  {
    hide LineKept;
    forall j | 0 <= j < i + 1 && lines[j].address != TWO64 - 1
      ensures LineKept(lines, picked + [i], j)
    {
      LineKeptStill(lines, picked, i, j);
    }
  }

  lemma LineRises(lines: seq<Line>, i: nat, p: LineProgress)
    requires i < |lines| && LinesSorted(lines) && LinesRise(lines, i, p.picked) && LineRemembered(lines, i, p)
    requires lines[i].address != p.previous
    ensures LinesRise(lines, i + 1, p.picked + [i])
  {
    if p.picked != [] {
      var last := p.picked[|p.picked| - 1];
      assert lines[last].address <= lines[i].address;
      forall k | 0 <= k < |p.picked|
        ensures lines[p.picked[k]].address < lines[i].address
      {
      }
    }
  }
}
