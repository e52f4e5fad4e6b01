/**
 Global symbols: merging the declarations of one name in the order the files are read, and
 what the result depends on.
 */
module SymbolMerge {

  /** Where a declaration puts its symbol: nowhere, in common storage, or in a section. */
  datatype Kind = Undefined | Common | Definition

  datatype Decl = Decl(kind: Kind, weak: bool, size: nat, value: nat, file: nat)

  /** defined may also be set when a shared library has the symbol; header is the declaration that counts. */
  datatype State = State(header: Decl, defined: bool, size: nat, value: nat, file: nat)

  function First(d: Decl): State { State(d, d.kind != Undefined, d.size, d.value, d.file) }

  function Adopt(d: Decl): State { State(d, true, d.size, d.value, d.file) }

  datatype Merged = Merged(state: State, error: bool)

  /** RedefineSymbol: the symbol after one more declaration, and whether it is a multiple definition. */
  function Redefine(s: State, d: Decl): Merged {
    if d.kind != Undefined then
      if s.defined then
        if s.header.kind == Common && d.kind == Common then
          Merged(if d.size > s.size then s.(size := d.size) else s, false)
        else if d.weak then Merged(s, false)
        else if s.header.weak then Merged(Adopt(d), false)
        else Merged(s, true)
      else Merged(Adopt(d), false)
    else if !s.defined && s.header.weak && !d.weak then
      Merged(s.(header := d, size := d.size, file := d.file), false)
    else Merged(s, false)
  }

  datatype Result = Result(state: State, errors: nat)

  /** All declarations of a name, in the order they are read. */
  function Resolve(ds: seq<Decl>): Result
    requires ds != []
  {
    if |ds| == 1 then Result(First(ds[0]), 0)
    else
      var r := Resolve(ds[..|ds| - 1]);
      var m := Redefine(r.state, ds[|ds| - 1]);
      Result(m.state, r.errors + (if m.error then 1 else 0))
  }

  // ---- what the result depends on ----

  /** Weak reference, reference, weak definition, strong definition. */
  function Rank(d: Decl): nat {
    (if d.kind == Undefined then 0 else 2) + (if d.weak then 0 else 1)
  }

  predicate Strong(d: Decl) { Rank(d) == 3 }

  predicate WeakCommon(d: Decl) { d.kind == Common && d.weak }

  function MaxRank(ds: seq<Decl>): nat
    requires ds != []
  {
    if |ds| == 1 then Rank(ds[0])
    else var r := MaxRank(ds[..|ds| - 1]); if Rank(ds[|ds| - 1]) > r then Rank(ds[|ds| - 1]) else r
  }

  lemma {:induction false} MaxRankMeaning(ds: seq<Decl>)
    requires ds != []
    ensures forall i :: 0 <= i < |ds| ==> Rank(ds[i]) <= MaxRank(ds)
    ensures exists i :: 0 <= i < |ds| && Rank(ds[i]) == MaxRank(ds)
  {
    var n := |ds| - 1;
    if n > 0 {
      var rest := ds[..n];
      MaxRankMeaning(rest);
      var i :| 0 <= i < n && Rank(rest[i]) == MaxRank(rest);
      assert ds[i] == rest[i];
      forall k | 0 <= k < |ds|
        ensures Rank(ds[k]) <= MaxRank(ds)
      {
        assert k < n ==> ds[k] == rest[k];
      }
    }
    assert Rank(ds[n]) == MaxRank(ds) || n > 0;
  }

  function StrongCount(ds: seq<Decl>): nat {
    if ds == [] then 0 else StrongCount(ds[..|ds| - 1]) + (if Strong(ds[|ds| - 1]) then 1 else 0)
  }

  /** The strong definitions that are not common. */
  function SolidCount(ds: seq<Decl>): nat {
    if ds == [] then 0
    else SolidCount(ds[..|ds| - 1]) + (if Strong(ds[|ds| - 1]) && ds[|ds| - 1].kind != Common then 1 else 0)
  }

  function LargestCommon(ds: seq<Decl>): nat {
    if ds == [] then 0
    else
      var r, d := LargestCommon(ds[..|ds| - 1]), ds[|ds| - 1];
      if Strong(d) && d.kind == Common && d.size > r then d.size else r
  }

  /** Two strong definitions that are not all common. */
  predicate Conflict(ds: seq<Decl>) { StrongCount(ds) >= 2 && SolidCount(ds) >= 1 }

  predicate NoWeakCommon(ds: seq<Decl>) {
    forall i :: 0 <= i < |ds| ==> !WeakCommon(ds[i])
  }

  lemma {:induction false} SolidIsStrong(ds: seq<Decl>)
    ensures SolidCount(ds) <= StrongCount(ds)
  {
    if ds != [] {
      SolidIsStrong(ds[..|ds| - 1]);
    }
  }

  lemma {:induction false} NoStrong(ds: seq<Decl>)
    requires ds != []
    ensures MaxRank(ds) <= 3 && (MaxRank(ds) == 3 <==> StrongCount(ds) > 0)
    ensures StrongCount(ds) == 0 ==> LargestCommon(ds) == 0
  {
    var rest := ds[..|ds| - 1];
    if rest != [] {
      NoStrong(rest);
    } else {
      assert StrongCount(rest) == 0 && LargestCommon(rest) == 0;
    }
  }

  /** The facts that hold after any number of declarations without weak commons. */
  predicate Summarised(ds: seq<Decl>, r: Result)
    requires ds != []
  {
    && Rank(r.state.header) == MaxRank(ds) && (r.state.defined <==> MaxRank(ds) >= 2)
    && (r.state.header.kind != Undefined <==> MaxRank(ds) >= 2)
    && !WeakCommon(r.state.header)
    && (r.errors > 0 <==> Conflict(ds))
    && (r.errors == 0 && StrongCount(ds) > 0 ==> (r.state.header.kind == Common <==> SolidCount(ds) == 0))
    && (SolidCount(ds) == 0 && StrongCount(ds) > 0 ==> r.state.size == LargestCommon(ds) && r.state.header.kind == Common)
  }

  /** Without weak commons: the class is the strongest declared, errors are conflicts, common sizes are the largest. */
  lemma {:induction false} ResolveSummary(ds: seq<Decl>)
    requires ds != [] && NoWeakCommon(ds)
    ensures Summarised(ds, Resolve(ds))
  {
    var n := |ds| - 1;
    var rest, d := ds[..n], ds[n];
    SolidIsStrong(ds);
    if n == 0 {
      assert StrongCount(rest) == 0 && SolidCount(rest) == 0 && LargestCommon(rest) == 0;
    } else {
      ResolveSummary(rest);
      SolidIsStrong(rest);
      NoStrong(rest);
      assert !WeakCommon(d);
    }
  }

  // ---- whose declaration counts ----

  /** The header is one of the declarations, and a defined symbol has its header's value and file. */
  lemma {:induction false} HeaderGoverns(ds: seq<Decl>)
    requires ds != []
    ensures var s := Resolve(ds).state;
            && s.header in ds && (s.defined ==> s.value == s.header.value && s.file == s.header.file)
            && (s.header.kind != Common ==> s.size == s.header.size) && s.size >= s.header.size
            && (s.defined <==> s.header.kind != Undefined)
  {
    var n := |ds| - 1;
    if n > 0 {
      HeaderGoverns(ds[..n]);
      assert ds == ds[..n] + [ds[n]];
    }
  }

  /** The first declaration of the highest rank. */
  function Winner(ds: seq<Decl>): (i: nat)
    requires ds != []
    ensures i < |ds| && Rank(ds[i]) == MaxRank(ds)
    ensures forall k :: 0 <= k < |ds| ==> Rank(ds[k]) <= Rank(ds[i])
    ensures forall k :: 0 <= k < i ==> Rank(ds[k]) < Rank(ds[i])
  {
    if |ds| == 1 then 0
    else
      var n := |ds| - 1;
      var i := Winner(ds[..n]);
      assert forall k :: 0 <= k < n ==> ds[..n][k] == ds[k];
      if Rank(ds[n]) > Rank(ds[i]) then n else i
  }

  /** Without weak commons the declaration that counts is the first of the highest rank. */
  lemma {:induction false} FirstStrongestWins(ds: seq<Decl>)
    requires ds != [] && NoWeakCommon(ds)
    ensures Resolve(ds).state.header == ds[Winner(ds)]
  {
    var n := |ds| - 1;
    if n > 0 {
      FirstStrongestWins(ds[..n]);
      HeaderGoverns(ds[..n]);
      assert !WeakCommon(ds[n]);
    }
  }

  /** Without weak commons a name with one strong definition has exactly its header, size, value and file. */
  lemma OneStrongWins(ds: seq<Decl>, i: nat)
    requires ds != [] && NoWeakCommon(ds) && i < |ds| && Strong(ds[i])
    requires forall k :: 0 <= k < |ds| && k != i ==> !Strong(ds[k])
    ensures var s := Resolve(ds).state;
            s.header == ds[i] && s.defined && s.size == ds[i].size && s.value == ds[i].value && s.file == ds[i].file
  {
    FirstStrongestWins(ds);
    HeaderGoverns(ds);
    hide Resolve, Winner;
    assert Winner(ds) == i;
    OneStrongSize(ds, i);
  }

  lemma {:induction false} OneStrongSize(ds: seq<Decl>, i: nat)
    requires ds != [] && NoWeakCommon(ds) && i < |ds| && Strong(ds[i])
    requires forall k :: 0 <= k < |ds| && k != i ==> !Strong(ds[k])
    ensures Resolve(ds).state.size == ds[i].size && Resolve(ds).state.header == ds[i]
  {
    FirstStrongestWins(ds);
    assert Winner(ds) == i;
    var n := |ds| - 1;
    if n > 0 {
      FirstStrongestWins(ds[..n]);
      HeaderGoverns(ds[..n]);
      assert !WeakCommon(ds[n]);
      if i < n {
        OneStrongSize(ds[..n], i);
      }
    }
  }

  // ---- permutations ----

  lemma {:induction false} CountsOfMultiset(ds: seq<Decl>, es: seq<Decl>)
    requires multiset(ds) == multiset(es)
    ensures StrongCount(ds) == StrongCount(es) && SolidCount(ds) == SolidCount(es)
    ensures LargestCommon(ds) == LargestCommon(es)
    decreases |ds|
  {
    assert |ds| == |multiset(ds)| == |multiset(es)| == |es|;
    if ds != [] {
      var d := ds[|ds| - 1];
      assert d in multiset(es);
      var i :| 0 <= i < |es| && es[i] == d;
      var rest := es[..i] + es[i + 1..];
      RemoveOne(es, i);
      assert ds == ds[..|ds| - 1] + [d];
      assert multiset(ds) == multiset(ds[..|ds| - 1]) + multiset{d};
      SameWithoutOne(multiset(ds[..|ds| - 1]), multiset(rest), d);
      CountsOfMultiset(ds[..|ds| - 1], rest);
      CountsWithout(es, i);
    }
  }

  lemma SameWithoutOne(a: multiset<Decl>, b: multiset<Decl>, d: Decl)
    requires a + multiset{d} == b + multiset{d}
    ensures a == b
  {
    assert (a + multiset{d}) - multiset{d} == a;
    assert (b + multiset{d}) - multiset{d} == b;
  }

  lemma RemoveOne(es: seq<Decl>, i: nat)
    requires i < |es|
    ensures multiset(es) == multiset(es[..i] + es[i + 1..]) + multiset{es[i]}
  {
    assert es == es[..i] + [es[i]] + es[i + 1..];
  }

  lemma {:induction false} CountsWithout(es: seq<Decl>, i: nat)
    requires i < |es|
    ensures var rest := es[..i] + es[i + 1..];
            && StrongCount(es) == StrongCount(rest) + (if Strong(es[i]) then 1 else 0)
            && SolidCount(es) == SolidCount(rest) + (if Strong(es[i]) && es[i].kind != Common then 1 else 0)
            && LargestCommon(es) == (var r := LargestCommon(rest);
                                     if Strong(es[i]) && es[i].kind == Common && es[i].size > r then es[i].size else r)
  {
    var n := |es| - 1;
    var rest := es[..i] + es[i + 1..];
    if i == n {
      assert rest == es[..n];
    } else {
      var shorter := es[..n][..i] + es[..n][i + 1..];
      CountsWithout(es[..n], i);
      assert rest[..n - 1] == shorter && rest[n - 1] == es[n];
    }
  }

  lemma RankOfMultiset(ds: seq<Decl>, es: seq<Decl>)
    requires ds != [] && multiset(ds) == multiset(es)
    ensures es != [] && MaxRank(ds) == MaxRank(es)
  {
    assert ds[0] in multiset(es);
    MaxRankMeaning(ds);
    MaxRankMeaning(es);
    var i :| 0 <= i < |ds| && Rank(ds[i]) == MaxRank(ds);
    assert ds[i] in multiset(es);
    var j :| 0 <= j < |es| && Rank(es[j]) == MaxRank(es);
    assert es[j] in multiset(ds);
  }

  /** The order of the files does not change the class, whether there is an error, or a common size. */
  lemma OrderDoesNotMatter(ds: seq<Decl>, es: seq<Decl>)
    requires ds != [] && multiset(ds) == multiset(es) && NoWeakCommon(ds)
    ensures es != []
    ensures Rank(Resolve(ds).state.header) == Rank(Resolve(es).state.header)
    ensures Resolve(ds).state.defined == Resolve(es).state.defined
    ensures Resolve(ds).errors > 0 <==> Resolve(es).errors > 0
    ensures SolidCount(ds) == 0 && StrongCount(ds) > 0 ==> Resolve(ds).state.size == Resolve(es).state.size
  {
    RankOfMultiset(ds, es);
    CountsOfMultiset(ds, es);
    forall i | 0 <= i < |es|
      ensures !WeakCommon(es[i])
    {
      assert es[i] in multiset(ds);
    }
    ResolveSummary(ds);
    ResolveSummary(es);
    hide Resolve;
  }

  /** With a weak common the order does matter: read first, it absorbs a strong common. */
  lemma WeakCommonsMatter()
    ensures var w, c := Decl(Common, true, 4, 4, 0), Decl(Common, false, 4, 4, 1);
            Rank(Resolve([w, c]).state.header) == 2 && Rank(Resolve([c, w]).state.header) == 3
  {
    var w, c := Decl(Common, true, 4, 4, 0), Decl(Common, false, 4, 4, 1);
    assert [w, c][..1] == [w] && [c, w][..1] == [c];
  }

  // ---- exactly when weak commons matter ----

  /** The first declaration that defines the symbol, or -1. */
  function FirstDefining(ds: seq<Decl>): (r: int)
    ensures -1 <= r < |ds| && (r >= 0 ==> ds[r].kind != Undefined)
    ensures forall i :: 0 <= i < (if r < 0 then |ds| else r) ==> ds[i].kind == Undefined
  {
    if ds == [] then -1
    else if FirstDefining(ds[..|ds| - 1]) >= 0 then FirstDefining(ds[..|ds| - 1])
    else if ds[|ds| - 1].kind != Undefined then |ds| - 1
    else -1
  }

  /** A weak common came first, and every strong definition is a common: they are all absorbed. */
  predicate Absorbed(ds: seq<Decl>) {
    && FirstDefining(ds) >= 0 && WeakCommon(ds[FirstDefining(ds)])
    && StrongCount(ds) > 0 && SolidCount(ds) == 0
  }

  /** A strong definition follows one that is not common. */
  predicate StrongAfterSolid(ds: seq<Decl>) {
    ds != [] && (StrongAfterSolid(ds[..|ds| - 1]) || (Strong(ds[|ds| - 1]) && SolidCount(ds[..|ds| - 1]) > 0))
  }

  lemma {:induction false} SolidBefore(ds: seq<Decl>)
    ensures StrongAfterSolid(ds) ==> SolidCount(ds) > 0
  {
    if ds != [] {
      SolidBefore(ds[..|ds| - 1]);
    }
  }

  /** What is reported as a multiple definition: what a leading weak common absorbs does not count. */
  predicate Reported(ds: seq<Decl>) {
    if FirstDefining(ds) >= 0 && WeakCommon(ds[FirstDefining(ds)]) then StrongAfterSolid(ds) else Conflict(ds)
  }

  predicate Ranked(ds: seq<Decl>, r: Result)
    requires ds != []
  {
    && (r.state.defined <==> FirstDefining(ds) >= 0) && (r.state.defined <==> r.state.header.kind != Undefined)
    && (r.state.defined <==> MaxRank(ds) >= 2)
    && Rank(r.state.header) == (if Absorbed(ds) then 2 else MaxRank(ds))
    && (WeakCommon(r.state.header) <==>
          FirstDefining(ds) >= 0 && WeakCommon(ds[FirstDefining(ds)]) && SolidCount(ds) == 0)
    && (r.errors > 0 <==> Reported(ds))
    && (r.errors == 0 && Rank(r.state.header) == 3 ==> (r.state.header.kind == Common <==> SolidCount(ds) == 0))
  }

  /** For any declarations, the class is the strongest declared exactly when nothing was absorbed. */
  lemma {:induction false} ClassExactly(ds: seq<Decl>)
    requires ds != []
    ensures Ranked(ds, Resolve(ds))
    ensures Rank(Resolve(ds).state.header) == MaxRank(ds) <==> !Absorbed(ds)
    ensures Resolve(ds).errors > 0 <==> Reported(ds)
  {
    var n := |ds| - 1;
    var rest, d := ds[..n], ds[n];
    NoStrong(ds);
    if n == 0 {
      assert rest == [] && StrongCount(rest) == 0 && SolidCount(rest) == 0 && FirstDefining(rest) == -1;
      assert !StrongAfterSolid(rest) && !StrongAfterSolid(ds) && !Conflict(ds);
    } else {
      ClassExactly(rest);
      NoStrong(rest);
      SolidIsStrong(rest);
      SolidBefore(rest);
      assert FirstDefining(ds) == if FirstDefining(rest) >= 0 then FirstDefining(rest) else if d.kind != Undefined then n else -1;
      assert FirstDefining(rest) >= 0 ==> ds[FirstDefining(rest)] == rest[FirstDefining(rest)];
    }
  }
}
