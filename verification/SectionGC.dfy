/**
 Garbage collection of unused sections: the graph of relocations, the roots, and the
 worklist pass, which keeps exactly the allocatable sections that a root reaches.
 */
module SectionGC {

  /** A reference that may be null. */
  datatype Ref = Null | To(section: nat)

  datatype Header = Header(name: string, alloc: bool, retain: bool)

  /** symbolSection and symbol's section may be null; a name is looked up in the file. */
  datatype Reloc = Reloc(section: Ref, symbolSection: Ref, symbolsOwn: Ref, symbolName: string)

  datatype File = File(sections: seq<nat>, relocs: seq<Reloc>, symbols: map<string, Ref>)

  datatype Symbol = Symbol(name: string, defined: bool, section: Ref)

  datatype Link = Link(headers: seq<Header>, files: seq<File>, globals: seq<Symbol>, entry: string, dso: bool)

  // ---- roots and edges ----

  predicate StartsWith(s: string, prefix: string) { |prefix| <= |s| && s[..|prefix|] == prefix }

  predicate IsGCRoot(h: Header) {
    || h.retain
    || h.name in {".init", ".fini", ".ctors", ".dtors", ".jcr", ".boot", ".hwvectors",
                  ".preinit_array", ".init_array", ".fini_array"}
    || StartsWith(h.name, ".eh_frame") || StartsWith(h.name, ".gcc_except_table")
    || StartsWith(h.name, ".ARM.exidx") || StartsWith(h.name, ".ARM.extab")
    || StartsWith(h.name, ".init_array.") || StartsWith(h.name, ".preinit_array.") || StartsWith(h.name, ".fini_array.")
    || StartsWith(h.name, ".ctors.") || StartsWith(h.name, ".dtors.")
  }

  function TargetOf(file: File, r: Reloc): Ref {
    if r.symbolSection != Null then r.symbolSection
    else if r.symbolsOwn != Null then r.symbolsOwn
    else if r.symbolName == "" then Null
    else if r.symbolName in file.symbols then file.symbols[r.symbolName]
    else Null
  }

  /**
   What a relocation names: its symbol's section, failing that its symbol's own, and failing
   both, as for every relocation that is read from an object, the section its name is found in.
   */
  predicate Names(file: File, r: Reloc, t: nat) {
    || r.symbolSection == To(t)
    || (r.symbolSection == Null && r.symbolsOwn == To(t))
    || (r.symbolSection == Null && r.symbolsOwn == Null && r.symbolName != ""
        && r.symbolName in file.symbols && file.symbols[r.symbolName] == To(t))
  }

  lemma TargetIsNamed(file: File, r: Reloc, t: nat)
    ensures TargetOf(file, r) == To(t) <==> Names(file, r, t)
  {
  }

  predicate RefOk(link: Link, r: Ref) { r.To? ==> r.section < |link.headers| }

  predicate FileOk(link: Link, file: File) {
    && (forall i :: 0 <= i < |file.sections| ==> file.sections[i] < |link.headers|)
    && (forall i :: 0 <= i < |file.relocs| ==>
          RefOk(link, file.relocs[i].section) && RefOk(link, TargetOf(file, file.relocs[i])))
  }

  /** References lead to sections, and a section is one entry of one file. */
  predicate LinkOk(link: Link) {
    && (forall f :: 0 <= f < |link.files| ==> FileOk(link, link.files[f]))
    && (forall g :: 0 <= g < |link.globals| ==> RefOk(link, link.globals[g].section))
    && (forall f, i, g, j :: (0 <= f < |link.files| && 0 <= i < |link.files[f].sections|
                              && 0 <= g < |link.files| && 0 <= j < |link.files[g].sections|
                              && link.files[f].sections[i] == link.files[g].sections[j]) ==> f == g && i == j)
  }

  predicate Listed(link: Link, s: nat) {
    exists f, i :: 0 <= f < |link.files| && 0 <= i < |link.files[f].sections| && link.files[f].sections[i] == s
  }

  /** The sections the pass decides about: the allocatable ones of the files. */
  predicate Collected(link: Link, s: nat)
    requires s < |link.headers|
  {
    link.headers[s].alloc && Listed(link, s)
  }

  /** A relocation in s refers to t. */
  predicate Edge(link: Link, s: nat, t: nat) {
    exists f, r :: 0 <= f < |link.files| && 0 <= r < |link.files[f].relocs| && Refers(link, f, r, s, t)
  }

  predicate Refers(link: Link, f: nat, r: nat, s: nat, t: nat)
    requires f < |link.files| && r < |link.files[f].relocs|
  {
    link.files[f].relocs[r].section == To(s) && TargetOf(link.files[f], link.files[f].relocs[r]) == To(t)
  }

  function FindSymbol(globals: seq<Symbol>, name: string): Ref {
    if globals == [] then Null
    else if globals[0].name == name then globals[0].section
    else FindSymbol(globals[1..], name)
  }

  /** g is the first global of its name. */
  predicate FirstNamed(globals: seq<Symbol>, g: nat) {
    g < |globals| && forall h :: 0 <= h < g ==> globals[h].name != globals[g].name
  }

  lemma {:induction false} FindsFirst(globals: seq<Symbol>, g: nat)
    requires FirstNamed(globals, g)
    ensures FindSymbol(globals, globals[g].name) == globals[g].section
  {
    if g > 0 {
      assert forall h :: 0 <= h < g - 1 ==> globals[1..][h] == globals[h + 1];
      FindsFirst(globals[1..], g - 1);
    }
  }

  /** What makes a section a root, by the fields of the link. */
  predicate RootOf(link: Link, s: nat)
    requires s < |link.headers|
  {
    || link.headers[s].retain || IsGCRoot(link.headers[s])
    || (exists g :: 0 <= g < |link.globals| && FirstNamed(link.globals, g) && link.globals[g].name == link.entry
                    && link.globals[g].section == To(s))
    || (link.dso && exists g :: 0 <= g < |link.globals| && link.globals[g].defined && link.globals[g].section == To(s))
  }

  /** The names that make a section a root, alone or as a prefix. */
  lemma RootNames(h: Header, suffix: string)
    ensures h.retain ==> IsGCRoot(h)
    ensures h.name in {".init", ".fini", ".ctors", ".dtors", ".jcr", ".boot", ".hwvectors"} ==> IsGCRoot(h)
    ensures h.name in {".preinit_array", ".init_array", ".fini_array"} ==> IsGCRoot(h)
    ensures h.name in {".eh_frame" + suffix, ".gcc_except_table" + suffix, ".ARM.exidx" + suffix} ==> IsGCRoot(h)
    ensures h.name in {".ARM.extab" + suffix, ".ctors." + suffix, ".dtors." + suffix} ==> IsGCRoot(h)
    ensures h.name in {".init_array." + suffix, ".preinit_array." + suffix, ".fini_array." + suffix} ==> IsGCRoot(h)
    ensures !h.retain && h.name == ".text" + suffix ==> !IsGCRoot(h)
  {
    if h.name == ".text" + suffix {
      assert h.name[1] == 't' && h.name[2] == 'e';
    }
  }

  lemma SeedsAreRoots(link: Link, s: nat)
    requires s < |link.headers|
    ensures Seed(link, s) <==> RootOf(link, s)
  {
    forall g | 0 <= g < |link.globals| && FirstNamed(link.globals, g)
      ensures FindSymbol(link.globals, link.globals[g].name) == link.globals[g].section
    {
      FindsFirst(link.globals, g);
    }
    FindsSome(link.globals, link.entry);
    hide FindSymbol, FirstNamed, DefinedGlobal;
  }

  lemma {:induction false} FindsSome(globals: seq<Symbol>, name: string)
    ensures FindSymbol(globals, name) == Null ||
            exists g :: 0 <= g < |globals| && FirstNamed(globals, g) && globals[g].name == name
  {
    if globals != [] {
      if globals[0].name == name {
        assert FirstNamed(globals, 0);
      } else {
        FindsSome(globals[1..], name);
        if FindSymbol(globals[1..], name) != Null {
          var g :| 0 <= g < |globals| - 1 && FirstNamed(globals[1..], g) && globals[1..][g].name == name;
          assert forall h :: 1 <= h < |globals| ==> globals[h] == globals[1..][h - 1];
          assert FirstNamed(globals, g + 1);
        }
      }
    }
  }

  predicate DefinedGlobal(link: Link, s: nat) {
    exists g :: 0 <= g < |link.globals| && link.globals[g].defined && link.globals[g].section == To(s)
  }

  predicate Seed(link: Link, s: nat)
    requires s < |link.headers|
  {
    IsGCRoot(link.headers[s]) || FindSymbol(link.globals, link.entry) == To(s) || (link.dso && DefinedGlobal(link, s))
  }

  /** A chain of relocations from a root through sections the pass decides about. */
  ghost predicate Path(link: Link, p: seq<nat>) {
    && p != [] && (forall i :: 0 <= i < |p| ==> p[i] < |link.headers| && Collected(link, p[i]))
    && Seed(link, p[0])
    && forall i :: 0 < i < |p| ==> Edge(link, p[i - 1], p[i])
  }

  ghost predicate Reached(link: Link, s: nat) {
    exists p :: Path(link, p) && p[|p| - 1] == s
  }

  lemma SeedReached(link: Link, s: nat)
    requires s < |link.headers| && Collected(link, s) && Seed(link, s)
    ensures Reached(link, s)
  {
    assert Path(link, [s]);
  }

  lemma EdgeReached(link: Link, s: nat, t: nat)
    requires Reached(link, s) && Edge(link, s, t) && t < |link.headers| && Collected(link, t)
    ensures Reached(link, t)
  {
    hide Seed, Edge, Collected;
    var p :| Path(link, p) && p[|p| - 1] == s;
    assert Path(link, p + [t]);
  }

  ghost predicate SeedsKept(link: Link, gone: seq<bool>)
    requires |gone| == |link.headers|
  {
    forall u :: 0 <= u < |gone| && Collected(link, u) && Seed(link, u) ==> !gone[u]
  }

  ghost predicate EdgesKept(link: Link, gone: seq<bool>)
    requires |gone| == |link.headers|
  {
    forall u, v :: 0 <= u < |gone| && 0 <= v < |gone| && Collected(link, u) && !gone[u] && Edge(link, u, v) ==> !gone[v]
  }

  /** What holds the seeds and is closed under edges holds all that is reached. */
  lemma ClosedHoldsReached(link: Link, gone: seq<bool>, s: nat)
    requires |gone| == |link.headers| && SeedsKept(link, gone) && EdgesKept(link, gone) && Reached(link, s)
    ensures s < |gone| && !gone[s]
  {
    var p :| Path(link, p) && p[|p| - 1] == s;
    PathKept(link, gone, p, |p| - 1);
  }

  lemma {:induction false} PathKept(link: Link, gone: seq<bool>, p: seq<nat>, i: nat)
    requires |gone| == |link.headers| && SeedsKept(link, gone) && EdgesKept(link, gone) && Path(link, p) && i < |p|
    ensures p[i] < |gone| && !gone[p[i]]
  {
    hide Seed, Edge, Collected;
    if i > 0 {
      PathKept(link, gone, p, i - 1);
    }
  }

  predicate Distinct(s: seq<nat>) { forall i, j :: 0 <= i < j < |s| ==> s[i] != s[j] }

  ghost function Numbers(n: nat): (r: set<nat>)
    ensures forall k: nat :: k in r <==> k < n
    ensures |r| == n
  {
    if n == 0 then {} else
      var rest := Numbers(n - 1);
      assert n - 1 !in rest;
      rest + {n - 1}
  }

  ghost function Members(s: seq<nat>): set<nat> {
    if s == [] then {} else Members(s[..|s| - 1]) + {s[|s| - 1]}
  }

  lemma {:induction false} MembersOf(s: seq<nat>)
    ensures forall k :: k in Members(s) <==> k in s
    ensures Distinct(s) ==> |Members(s)| == |s|
  {
    if s != [] {
      assert s == s[..|s| - 1] + [s[|s| - 1]];
      MembersOf(s[..|s| - 1]);
    }
  }

  lemma SubsetSize(a: set<nat>, b: set<nat>)
    requires a <= b
    ensures |a| <= |b|
  {
    assert b == a + (b - a);
  }

  lemma DistinctBound(s: seq<nat>, n: nat)
    requires Distinct(s) && forall i :: 0 <= i < |s| ==> s[i] < n
    ensures |s| <= n
  {
    MembersOf(s);
    SubsetSize(Members(s), Numbers(n));
  }

  /** A live section that is neither waiting nor s has only live sections behind its references. */
  ghost predicate AllButWalked(link: Link, refs: seq<seq<nat>>, gone: seq<bool>, waiting: seq<nat>, s: nat, r: nat)
    requires |gone| == |link.headers| == |refs|
  {
    && s < |refs| && r <= |refs[s]|
    && (forall k :: 0 <= k < r ==> refs[s][k] < |gone| && !gone[refs[s][k]])
    && forall u, k :: 0 <= u < |refs| && !gone[u] && Collected(link, u) && u !in waiting && u != s && 0 <= k < |refs[u]| ==>
         refs[u][k] < |gone| && !gone[refs[u][k]]
  }

  lemma OneMoreWalked(link: Link, refs: seq<seq<nat>>, gone: seq<bool>, waiting: seq<nat>, s: nat, r: nat)
    requires |gone| == |link.headers| == |refs| && AllButWalked(link, refs, gone, waiting, s, r)
    requires r < |refs[s]| && refs[s][r] < |gone|
    ensures var t := refs[s][r];
            && AllButWalked(link, refs, gone[t := false], waiting + [t], s, r + 1)
            && (!gone[t] ==> AllButWalked(link, refs, gone[t := false], waiting, s, r + 1))
  {
    hide Collected;
    var t := refs[s][r];
    assert forall u :: u !in waiting + [t] ==> u !in waiting && u != t;
  }

  // ---- the pass ----

  class Collector {
    const link: Link
    const discarded: array<bool>
    const refs: array<seq<nat>>
    var worklist: seq<nat>
    /** Everything that was ever put on the worklist, in order. */
    ghost var pushed: seq<nat>

    ghost predicate Valid()
      reads this
    {
      && LinkOk(link) && discarded.Length == refs.Length == |link.headers|
    }

    constructor (link: Link)
      requires LinkOk(link)
      ensures Valid() && this.link == link && worklist == [] && pushed == []
      ensures fresh(discarded) && fresh(refs)
      ensures forall s :: 0 <= s < discarded.Length ==> !discarded[s] && refs[s] == []
    {
      this.link := link;
      discarded := new bool[|link.headers|](_ => false);
      refs := new seq<nat>[|link.headers|](_ => []);
      worklist, pushed := [], [];
    }

    /** The edges of the relocations before relocation r of file f. */
    ghost predicate EdgeBefore(f: nat, r: nat, s: nat, t: nat) {
      exists g, q :: 0 <= g < |link.files| && 0 <= q < |link.files[g].relocs| && (g < f || (g == f && q < r))
                     && Refers(link, g, q, s, t)
    }

    ghost predicate GraphOf(f: nat, r: nat)
      reads this, refs
    {
      forall s, t :: 0 <= s < refs.Length ==> (t in refs[s] <==> EdgeBefore(f, r, s, t))
    }

    method BuildSectionRelocGraph()
      requires Valid() && forall s :: 0 <= s < refs.Length ==> refs[s] == []
      modifies refs
      ensures forall s, t :: 0 <= s < refs.Length ==> (t in refs[s] <==> Edge(link, s, t))
    {
      var f := 0;
      while f < |link.files|
        invariant 0 <= f <= |link.files| && GraphOf(f, 0)
      {
        var r := 0;
        while r < |link.files[f].relocs|
          invariant 0 <= r <= |link.files[f].relocs| && GraphOf(f, r)
        {
          AddReference(f, r);
          r := r + 1;
        }
        NextFile(f);
        f := f + 1;
      }
      forall s: nat, t: nat
        ensures EdgeBefore(f, 0, s, t) <==> Edge(link, s, t)
      {
      }
    }

    lemma NextFile(f: nat)
      requires f < |link.files|
      ensures forall s, t :: EdgeBefore(f, |link.files[f].relocs|, s, t) <==> EdgeBefore(f + 1, 0, s, t)
    {
    }

    method AddReference(f: nat, r: nat)
      requires Valid() && f < |link.files| && r < |link.files[f].relocs| && GraphOf(f, r)
      modifies refs
      ensures GraphOf(f, r + 1)
    {
      var reloc := link.files[f].relocs[r];
      assert FileOk(link, link.files[f]);
      var target := TargetOf(link.files[f], reloc);
      forall s: nat, t: nat
        ensures EdgeBefore(f, r + 1, s, t) <==> EdgeBefore(f, r, s, t) || Refers(link, f, r, s, t)
      {
      }
      if reloc.section != Null && target != Null {
        refs[reloc.section.section] := refs[reloc.section.section] + [target.section];
      }
      forall s: nat, t: nat | s < refs.Length
        ensures t in refs[s] <==> EdgeBefore(f, r + 1, s, t)
      {
        assert t in old(refs[s]) <==> EdgeBefore(f, r, s, t);
      }
    }

    // ---- marking ----

    ghost predicate Live(s: nat)
      requires s < |link.headers| == discarded.Length
      reads this, discarded
    {
      !discarded[s] && Collected(link, s)
    }

    /** The worklist and its history hold live sections, each once. */
    ghost predicate MarksOk()
      reads this, discarded
    {
      && Valid() && Distinct(pushed)
      && (forall i :: 0 <= i < |pushed| ==> pushed[i] < discarded.Length && Live(pushed[i]) && Reached(link, pushed[i]))
      && (forall i :: 0 <= i < |worklist| ==> worklist[i] in pushed)
      && (forall s :: 0 <= s < discarded.Length && discarded[s] ==> Collected(link, s))
    }

    lemma CollectedAlloc(s: nat)
      requires s < |link.headers|
      ensures Collected(link, s) ==> link.headers[s].alloc
    {
    }

    /** A section becomes live once; only an allocatable one is walked later. */
    method MarkSectionLive(s: nat)
      requires Valid() && MarksOk() && s < |link.headers| && (Collected(link, s) ==> Reached(link, s))
      modifies this, discarded
      ensures MarksOk()
      ensures forall u :: 0 <= u < discarded.Length ==> discarded[u] == (old(discarded[u]) && u != s)
      ensures if old(discarded[s]) then worklist == old(worklist) + [s] && pushed == old(pushed) + [s]
              else worklist == old(worklist) && pushed == old(pushed)
      ensures old(AllPushed()) ==> AllPushed()
    {
      hide Collected, Reached, LinkOk;
      assert Collected(link, s) ==> link.headers[s].alloc by { CollectedAlloc(s); }
      if !discarded[s] {
        return;
      }
      discarded[s] := false;
      if !link.headers[s].alloc {
        return;
      }
      assert s !in pushed;
      worklist := worklist + [s];
      pushed := pushed + [s];
    }

    // ---- roots ----

    /** Section s is among those before section i of file f. */
    ghost predicate Visited(f: nat, i: nat, s: nat) {
      exists g, j :: 0 <= g < |link.files| && 0 <= j < |link.files[g].sections| && (g < f || (g == f && j < i))
                     && link.files[g].sections[j] == s
    }

    /** The special sections among those seen are live and waiting, the other allocatable ones are not. */
    ghost predicate Decided(f: nat, i: nat, gone: seq<bool>, queue: seq<nat>)
      requires |gone| == |link.headers|
    {
      forall s: nat :: s < |gone| ==>
        && (gone[s] <==> Visited(f, i, s) && link.headers[s].alloc && !IsGCRoot(link.headers[s]))
        && (s in queue <==> Visited(f, i, s) && link.headers[s].alloc && IsGCRoot(link.headers[s]))
    }

    lemma DecidedNext(f: nat, i: nat, gone: seq<bool>, queue: seq<nat>)
      requires LinkOk(link) && |gone| == |link.headers| && Decided(f, i, gone, queue)
      requires f < |link.files| && i < |link.files[f].sections| && link.files[f].sections[i] < |gone|
      ensures var s := link.files[f].sections[i];
              if !link.headers[s].alloc then Decided(f, i + 1, gone, queue)
              else if IsGCRoot(link.headers[s]) then Decided(f, i + 1, gone, queue + [s])
              else Decided(f, i + 1, gone[s := true], queue)
    {
      hide Visited, IsGCRoot, LinkOk;
      VisitNext(f, i);
    }

    /** What has been decided when the sections before section i of file f have been seen. */
    ghost predicate Started(f: nat, i: nat)
      reads this, discarded
    {
      MarksOk() && worklist == pushed && Decided(f, i, discarded[..], pushed)
    }

    lemma VisitNext(f: nat, i: nat)
      requires LinkOk(link) && f < |link.files| && i < |link.files[f].sections|
      ensures var s := link.files[f].sections[i];
              && s < |link.headers| && Listed(link, s) && !Visited(f, i, s)
              && forall u :: Visited(f, i + 1, u) <==> Visited(f, i, u) || u == s
    {
      assert FileOk(link, link.files[f]);
    }

    lemma RootIsSeed(s: nat)
      requires s < |link.headers| && IsGCRoot(link.headers[s])
      ensures Seed(link, s)
    {
    }

    method Discard(s: nat)
      requires MarksOk() && s < discarded.Length && Collected(link, s) && s !in pushed
      modifies discarded
      ensures MarksOk() && discarded[s] && forall u :: 0 <= u < discarded.Length && u != s ==> discarded[u] == old(discarded[u])
    {
      hide Collected, Reached, LinkOk;
      discarded[s] := true;
    }

    method VisitSection(f: nat, i: nat)
      requires Started(f, i) && f < |link.files| && i < |link.files[f].sections|
      modifies this, discarded
      ensures Started(f, i + 1)
    {
      VisitNext(f, i);
      var s := link.files[f].sections[i];
      DecidedNext(f, i, discarded[..], pushed);
      if !link.headers[s].alloc {
        return;
      }
      assert Collected(link, s) && s !in pushed && !discarded[s];
      hide Collected, Seed, IsGCRoot, Visited, Reached, LinkOk, Decided;
      ghost var before := discarded[..];
      Discard(s);
      assert discarded[..] == before[s := true];
      if IsGCRoot(link.headers[s]) {
        RootIsSeed(s);
        SeedReached(link, s);
        MarkSectionLive(s);
        assert discarded[..] == before;
      }
    }

    method MarkSpecialSections()
      requires Valid() && worklist == pushed == [] && forall s :: 0 <= s < discarded.Length ==> !discarded[s]
      modifies this, discarded
      ensures Started(|link.files|, 0) && MarksOk() && worklist == pushed
    {
      var f := 0;
      while f < |link.files|
        invariant 0 <= f <= |link.files| && Started(f, 0)
      {
        var i := 0;
        while i < |link.files[f].sections|
          invariant 0 <= i <= |link.files[f].sections| && Started(f, i)
        {
          VisitSection(f, i);
          i := i + 1;
        }
        LastVisited(f);
        f := f + 1;
      }
    }

    lemma LastVisited(f: nat)
      requires f < |link.files|
      ensures forall s :: Visited(f, |link.files[f].sections|, s) <==> Visited(f + 1, 0, s)
    {
    }

    /** Every live section was put on the worklist. */
    ghost predicate AllPushed()
      requires Valid()
      reads this, discarded
    {
      forall s: nat :: s < discarded.Length && Live(s) ==> s in pushed
    }

    lemma StartedAll()
      requires Started(|link.files|, 0)
      ensures AllPushed()
      ensures forall s: nat :: s < discarded.Length && Collected(link, s) && IsGCRoot(link.headers[s]) ==> !discarded[s]
    {
      forall s: nat
        ensures Visited(|link.files|, 0, s) <==> Listed(link, s)
      {
      }
      hide IsGCRoot;
    }

    /** The entry symbol's section, and those of all defined globals of a shared object. */
    method MarkSymbols()
      requires MarksOk() && AllPushed() && worklist == pushed
      modifies this, discarded
      ensures MarksOk() && AllPushed() && worklist == pushed
      ensures forall s :: 0 <= s < discarded.Length && discarded[s] ==> old(discarded[s])
      ensures FindSymbol(link.globals, link.entry).To? ==>
                RefOk(link, FindSymbol(link.globals, link.entry)) && !discarded[FindSymbol(link.globals, link.entry).section]
      ensures link.dso ==> forall s: nat :: s < discarded.Length && DefinedGlobal(link, s) ==> !discarded[s]
    {
      var entry := FindSymbol(link.globals, link.entry);
      FoundOk(link.globals, link.entry);
      if entry.To? {
        SeedMark(entry.section);
      }
      if link.dso {
        var g := 0;
        while g < |link.globals|
          invariant 0 <= g <= |link.globals| && MarksOk() && AllPushed() && worklist == pushed
          invariant forall s :: 0 <= s < discarded.Length && discarded[s] ==> old(discarded[s])
          invariant entry.To? ==> !discarded[entry.section]
          invariant forall h :: 0 <= h < g && link.globals[h].defined && link.globals[h].section.To? ==>
                      !discarded[link.globals[h].section.section]
        {
          var symbol := link.globals[g];
          if symbol.defined && symbol.section.To? {
            SeedMark(symbol.section.section);
          }
          g := g + 1;
        }
      }
    }

    lemma FoundOk(globals: seq<Symbol>, name: string)
      requires forall g :: 0 <= g < |globals| ==> RefOk(link, globals[g].section)
      ensures RefOk(link, FindSymbol(globals, name))
    {
    }

    /** Marking a section that a symbol makes a root. */
    method SeedMark(s: nat)
      requires MarksOk() && AllPushed() && worklist == pushed && s < |link.headers| && Seed(link, s)
      modifies this, discarded
      ensures MarksOk() && AllPushed() && worklist == pushed
      ensures forall u :: 0 <= u < discarded.Length ==> discarded[u] == (old(discarded[u]) && u != s)
    {
      hide Seed, Reached;
      if Collected(link, s) {
        SeedReached(link, s);
      }
      MarkSectionLive(s);
    }

    // ---- walking ----

    /** A live section that is not waiting has only live sections behind its references. */
    ghost predicate Walked()
      requires Valid()
      reads this, discarded, refs
    {
      forall s, k :: 0 <= s < refs.Length && Live(s) && s !in worklist && 0 <= k < |refs[s]| ==> Kept(refs[s][k])
    }

    ghost predicate Kept(t: nat)
      requires Valid()
      reads this, discarded
    {
      t < discarded.Length && !discarded[t]
    }

    /** The graph has been built. */
    ghost predicate Built()
      requires Valid()
      reads this, refs
    {
      forall s: nat, t: nat :: s < refs.Length ==> (t in refs[s] <==> Edge(link, s, t))
    }

    lemma TargetsOk(s: nat, t: nat)
      requires Valid() && s < |link.headers| && Edge(link, s, t)
      ensures t < |link.headers|
    {
      var f, r :| 0 <= f < |link.files| && 0 <= r < |link.files[f].relocs| && Refers(link, f, r, s, t);
      assert FileOk(link, link.files[f]);
    }

    /** One section taken from the end of the worklist, and its references marked. */
    method WalkSection()
      requires MarksOk() && AllPushed() && Built() && Walked() && worklist != []
      modifies this, discarded
      ensures MarksOk() && AllPushed() && Walked()
      ensures forall u :: 0 <= u < discarded.Length && discarded[u] ==> old(discarded[u])
      ensures |pushed| > old(|pushed|) || (|pushed| == old(|pushed|) && |worklist| < old(|worklist|))
    {
      hide Collected, Reached, LinkOk, Edge;
      var s := worklist[|worklist| - 1];
      assert worklist[|worklist| - 1] in pushed;
      assert forall u :: u in worklist ==> u == s || u in worklist[..|worklist| - 1];
      worklist := worklist[..|worklist| - 1];
      ghost var waiting := worklist;
      hide MarksOk, AllPushed, Live, Built;
      var r := 0;
      while r < |refs[s]|
        invariant 0 <= r <= |refs[s]| && MarksOk() && AllPushed() && WalkedBut(s, r)
        invariant forall u :: 0 <= u < discarded.Length && discarded[u] ==> old(discarded[u])
        invariant |pushed| > old(|pushed|) || (pushed == old(pushed) && worklist == waiting)
      {
        MarkTarget(s, r);
        r := r + 1;
      }
    }

    /** As Walked, but for section s, of which only the references before r have been looked at. */
    ghost predicate WalkedBut(s: nat, r: nat)
      requires Valid()
      reads this, discarded, refs
    {
      AllButWalked(link, refs[..], discarded[..], worklist, s, r)
    }

    method MarkTarget(s: nat, r: nat)
      requires MarksOk() && AllPushed() && Built() && s < refs.Length && r < |refs[s]| && Reached(link, s) && WalkedBut(s, r)
      modifies this, discarded
      ensures MarksOk() && AllPushed() && WalkedBut(s, r + 1)
      ensures forall u :: 0 <= u < discarded.Length && discarded[u] ==> old(discarded[u])
      ensures |pushed| > old(|pushed|) || (pushed == old(pushed) && worklist == old(worklist))
    {
      var t := refs[s][r];
      assert Edge(link, s, t);
      TargetsOk(s, t);
      if Collected(link, t) {
        EdgeReached(link, s, t);
      }
      hide Collected, Reached, LinkOk, Edge, MarksOk, AllPushed, Built;
      ghost var gone, waiting := discarded[..], worklist;
      MarkSectionLive(t);
      OneMoreWalked(link, refs[..], gone, waiting, s, r);
      assert discarded[..] == gone[t := false];
      hide AllButWalked;
    }

    /** The pass as a whole: kept is reached, and each section is walked at most once. */
    method CollectSections()
      requires Valid() && worklist == pushed == []
      requires forall s :: 0 <= s < discarded.Length ==> !discarded[s] && refs[s] == []
      modifies this, discarded, refs
      ensures forall s: nat :: s < discarded.Length && Collected(link, s) ==> (!discarded[s] <==> Reached(link, s))
      ensures forall s: nat :: s < discarded.Length && !Collected(link, s) ==> !discarded[s]
      ensures forall s: nat, t: nat :: s < discarded.Length && !discarded[s] && Collected(link, s) && Edge(link, s, t) ==>
                t < discarded.Length && !discarded[t]
      ensures forall f: nat, r: nat, s: nat, t: nat :: Keeps(f, r, s, t)
      ensures forall s: nat :: s < discarded.Length && Collected(link, s) && RootOf(link, s) ==> !discarded[s]
      ensures worklist == [] && Distinct(pushed)
      ensures forall s: nat :: s in pushed <==> s < discarded.Length && !discarded[s] && Collected(link, s)
    {
      hide Collected, Reached, LinkOk, Edge, Seed, Started, IsGCRoot, DefinedGlobal;
      BuildSectionRelocGraph();
      MarkSpecialSections();
      StartedAll();
      MarkSymbols();
      SeedsDone();
      assert Walked();
      DistinctBound(pushed, discarded.Length);
      while worklist != []
        invariant MarksOk() && AllPushed() && Walked() && Built() && SeedsKept(link, discarded[..])
        invariant |pushed| <= discarded.Length
        decreases discarded.Length - |pushed|, |worklist|
      {
        ghost var before := discarded[..];
        WalkSection();
        DistinctBound(pushed, discarded.Length);
        SeedsStay(before, discarded[..]);
      }
      Finished();
      NamedAreKept();
      forall s: nat | s < discarded.Length && Collected(link, s) && RootOf(link, s)
        ensures !discarded[s]
      {
        SeedsAreRoots(link, s);
      }
    }

    /** If s is kept, so is t when relocation r of file f, which lies in s, names it. */
    predicate Keeps(f: nat, r: nat, s: nat, t: nat)
      reads this, discarded
    {
      f < |link.files| && r < |link.files[f].relocs| && link.files[f].relocs[r].section == To(s)
      && Names(link.files[f], link.files[f].relocs[r], t)
      && s < discarded.Length <= |link.headers| && !discarded[s] && Collected(link, s) ==>
        t < discarded.Length && !discarded[t]
    }

    lemma NamedAreKept()
      requires forall s: nat, t: nat :: s < discarded.Length <= |link.headers| && !discarded[s] && Collected(link, s) && Edge(link, s, t) ==>
                 t < discarded.Length && !discarded[t]
      ensures forall f: nat, r: nat, s: nat, t: nat :: Keeps(f, r, s, t)
    {
      forall f: nat, r: nat, s: nat, t: nat
        ensures Keeps(f, r, s, t)
      {
        if f < |link.files| && r < |link.files[f].relocs| && Names(link.files[f], link.files[f].relocs[r], t) {
          TargetIsNamed(link.files[f], link.files[f].relocs[r], t);
          hide TargetOf, Names, Collected;
          assert link.files[f].relocs[r].section == To(s) ==> Refers(link, f, r, s, t);
        }
      }
    }

    lemma SeedsDone()
      requires MarksOk()
      requires forall s: nat :: s < discarded.Length && Collected(link, s) && IsGCRoot(link.headers[s]) ==> !discarded[s]
      requires FindSymbol(link.globals, link.entry).To? ==>
                 RefOk(link, FindSymbol(link.globals, link.entry)) && !discarded[FindSymbol(link.globals, link.entry).section]
      requires link.dso ==> forall s: nat :: s < discarded.Length && DefinedGlobal(link, s) ==> !discarded[s]
      ensures SeedsKept(link, discarded[..])
    {
      hide IsGCRoot, DefinedGlobal;
    }

    lemma SeedsStay(before: seq<bool>, after: seq<bool>)
      requires |before| == |after| == |link.headers| && SeedsKept(link, before)
      requires forall u :: 0 <= u < |after| && after[u] ==> before[u]
      ensures SeedsKept(link, after)
    {
      hide Seed, Collected;
    }

    lemma Finished()
      requires MarksOk() && AllPushed() && Built() && Walked() && worklist == [] && SeedsKept(link, discarded[..])
      ensures forall s: nat :: s < discarded.Length && Collected(link, s) ==> (!discarded[s] <==> Reached(link, s))
      ensures forall s: nat :: s < discarded.Length && !Collected(link, s) ==> !discarded[s]
      ensures forall s: nat, t: nat :: s < discarded.Length && !discarded[s] && Collected(link, s) && Edge(link, s, t) ==>
                t < discarded.Length && !discarded[t]
      ensures forall s: nat :: s in pushed <==> s < discarded.Length && !discarded[s] && Collected(link, s)
    {
      hide Collected, Reached, LinkOk, Edge, Seed;
      forall s: nat, t: nat | s < discarded.Length && Live(s) && Edge(link, s, t)
        ensures t < discarded.Length && !discarded[t]
      {
        assert t in refs[s];
        var k :| 0 <= k < |refs[s]| && refs[s][k] == t;
        assert Kept(refs[s][k]);
      }
      assert EdgesKept(link, discarded[..]);
      forall s: nat | s < discarded.Length && Live(s)
        ensures s in pushed && Reached(link, s)
      {
        var i :| 0 <= i < |pushed| && pushed[i] == s;
      }
      forall s: nat | s < discarded.Length && Reached(link, s)
        ensures !discarded[s]
      {
        ClosedHoldsReached(link, discarded[..], s);
      }
    }
  }
}
