/**
 When the order in which the declarations of a name are read matters: exactly for which
 declarations the class, the report of a multiple definition, and the size of a common
 symbol depend on it.
 */
module SymbolOrder {
  import opened SymbolMerge

  ghost predicate Reorders(ds: seq<Decl>, es: seq<Decl>) { multiset(ds) == multiset(es) }

  predicate HasWeakCommon(ds: seq<Decl>) { exists i :: 0 <= i < |ds| && WeakCommon(ds[i]) }

  predicate HasSolid(ds: seq<Decl>) { exists i :: 0 <= i < |ds| && Strong(ds[i]) && ds[i].kind != Common }

  predicate HasStrong(ds: seq<Decl>) { exists i :: 0 <= i < |ds| && Strong(ds[i]) }

  lemma SameDeclarations(ds: seq<Decl>, es: seq<Decl>)
    requires Reorders(ds, es)
    ensures |ds| == |es| && (forall d :: d in ds <==> d in es) && (HasWeakCommon(ds) <==> HasWeakCommon(es))
  {
    assert |ds| == |multiset(ds)| && |es| == |multiset(es)|;
    forall d
      ensures d in ds <==> d in es
    {
      assert d in multiset(ds) <==> d in multiset(es);
    }
    assert HasWeakCommon(ds) <==> exists d :: d in ds && WeakCommon(d);
    assert HasWeakCommon(es) <==> exists d :: d in es && WeakCommon(d);
  }

  lemma {:induction false} StrongIsCounted(ds: seq<Decl>)
    ensures StrongCount(ds) > 0 <==> HasStrong(ds)
    ensures SolidCount(ds) > 0 <==> HasSolid(ds)
  {
    if ds != [] {
      var n := |ds| - 1;
      StrongIsCounted(ds[..n]);
      assert ds == ds[..n] + [ds[n]];
      assert forall i :: 0 <= i < n ==> ds[..n][i] == ds[i];
    }
  }

  /** The same declarations with the one at i read first. */
  function ReadFirst(ds: seq<Decl>, i: nat): (es: seq<Decl>)
    requires i < |ds|
    ensures es != [] && es[0] == ds[i]
  {
    [ds[i]] + ds[..i] + ds[i + 1..]
  }

  lemma ReadFirstReorders(ds: seq<Decl>, i: nat)
    requires i < |ds|
    ensures Reorders(ds, ReadFirst(ds, i))
  {
    assert ds == ds[..i] + [ds[i]] + ds[i + 1..];
  }

  lemma {:induction false} DefinedFirst(ds: seq<Decl>)
    requires ds != [] && ds[0].kind != Undefined
    ensures FirstDefining(ds) == 0
  {
  }

  // ---- the class ----

  function ClassOf(ds: seq<Decl>): nat
    requires ds != []
  {
    Rank(Resolve(ds).state.header)
  }

  /** There are a weak common and a strong declaration, and every strong one is a common. */
  predicate ClassDepends(ds: seq<Decl>) { HasWeakCommon(ds) && StrongCount(ds) > 0 && SolidCount(ds) == 0 }

  ghost predicate SameClass(ds: seq<Decl>, es: seq<Decl>) {
    ds != [] && Reorders(ds, es) ==> es != [] && ClassOf(es) == ClassOf(ds)
  }

  lemma ClassKept(ds: seq<Decl>, es: seq<Decl>)
    requires !ClassDepends(ds)
    ensures SameClass(ds, es)
  {
    if ds != [] && Reorders(ds, es) {
      SameDeclarations(ds, es);
      CountsOfMultiset(ds, es);
      RankOfMultiset(ds, es);
      ClassExactly(ds);
      ClassExactly(es);
      hide Resolve, MaxRank, StrongCount, SolidCount, Ranked, Reported;
    }
  }

  /** A weak common read first absorbs the commons; a strong one read first does not let it. */
  lemma ClassDiffers(ds: seq<Decl>) returns (es: seq<Decl>, fs: seq<Decl>)
    requires ClassDepends(ds)
    ensures Reorders(ds, es) && Reorders(ds, fs) && es != [] && fs != [] && ClassOf(es) == 2 && ClassOf(fs) == 3
  {
    StrongIsCounted(ds);
    var i :| 0 <= i < |ds| && WeakCommon(ds[i]);
    var j :| 0 <= j < |ds| && Strong(ds[j]);
    es, fs := ReadFirst(ds, i), ReadFirst(ds, j);
    ReadFirstReorders(ds, i);
    ReadFirstReorders(ds, j);
    DefinedFirst(es);
    DefinedFirst(fs);
    CountsOfMultiset(ds, es);
    CountsOfMultiset(ds, fs);
    ClassExactly(es);
    ClassExactly(fs);
    NoStrong(fs);
    hide Resolve, MaxRank, StrongCount, SolidCount, Reported, FirstDefining, ReadFirst;
  }

  /** The class of a name does not depend on the order of the files exactly when ClassDepends does not hold. */
  lemma ClassOrderExactly(ds: seq<Decl>)
    requires ds != []
    ensures (forall es :: SameClass(ds, es)) <==> !ClassDepends(ds)
  {
    if ClassDepends(ds) {
      var es, fs := ClassDiffers(ds);
      assert !SameClass(ds, es) || !SameClass(ds, fs);
    } else {
      forall es
        ensures SameClass(ds, es)
      {
        ClassKept(ds, es);
      }
    }
  }

  // ---- the report of a multiple definition ----

  /** There are a weak common, one strong definition that is not common, and another that is. */
  predicate ReportDepends(ds: seq<Decl>) { HasWeakCommon(ds) && SolidCount(ds) == 1 && StrongCount(ds) >= 2 }

  ghost predicate SameReport(ds: seq<Decl>, es: seq<Decl>) {
    ds != [] && Reorders(ds, es) ==> es != [] && (Resolve(es).errors > 0 <==> Resolve(ds).errors > 0)
  }

  lemma {:induction false} StrongAfterSolidMeans(ds: seq<Decl>)
    ensures StrongAfterSolid(ds) ==> StrongCount(ds) >= 2 && SolidCount(ds) >= 1
    ensures SolidCount(ds) >= 2 ==> StrongAfterSolid(ds)
  {
    if ds != [] {
      StrongAfterSolidMeans(ds[..|ds| - 1]);
      SolidIsStrong(ds[..|ds| - 1]);
    }
  }

  /** Outside ReportDepends what is reported is told by the counts. */
  lemma ReportByCounts(ds: seq<Decl>)
    requires ds != [] && !ReportDepends(ds)
    ensures Reported(ds) <==> Conflict(ds)
  {
    StrongAfterSolidMeans(ds);
    SolidIsStrong(ds);
    assert FirstDefining(ds) >= 0 && WeakCommon(ds[FirstDefining(ds)]) ==> HasWeakCommon(ds);
  }

  lemma ReportKept(ds: seq<Decl>, es: seq<Decl>)
    requires !ReportDepends(ds)
    ensures SameReport(ds, es)
  {
    if ds != [] && Reorders(ds, es) {
      SameDeclarations(ds, es);
      CountsOfMultiset(ds, es);
      ReportByCounts(ds);
      ReportByCounts(es);
      ClassExactly(ds);
      ClassExactly(es);
      hide Resolve, MaxRank, StrongCount, SolidCount, Ranked, Reported;
    }
  }

  function ReadLast(ds: seq<Decl>, j: nat): (es: seq<Decl>)
    requires j < |ds|
    ensures |es| == |ds| && es[|es| - 1] == ds[j]
  {
    ds[..j] + ds[j + 1..] + [ds[j]]
  }

  lemma ReadLastReorders(ds: seq<Decl>, j: nat)
    requires j < |ds|
    ensures Reorders(ds, ReadLast(ds, j))
  {
    assert ds == ds[..j] + [ds[j]] + ds[j + 1..];
  }

  /** The weak common first and the definition last. */
  lemma QuietOrder(ds: seq<Decl>, j: nat) returns (es: seq<Decl>)
    requires HasWeakCommon(ds) && j < |ds| && Strong(ds[j])
    ensures Reorders(ds, es) && es != [] && WeakCommon(es[0]) && es[|es| - 1] == ds[j]
  {
    var fs := ReadLast(ds, j);
    ReadLastReorders(ds, j);
    SameDeclarations(ds, fs);
    var i :| 0 <= i < |fs| && WeakCommon(fs[i]);
    es := ReadFirst(fs, i);
    ReadFirstReorders(fs, i);
    SameDeclarations(fs, es);
  }

  lemma NothingReported(es: seq<Decl>)
    requires es != [] && WeakCommon(es[0]) && SolidCount(es) == 1
    requires Strong(es[|es| - 1]) && es[|es| - 1].kind != Common
    ensures !Reported(es)
  {
    DefinedFirst(es);
    SolidBefore(es[..|es| - 1]);
  }

  lemma ReportDiffers(ds: seq<Decl>) returns (es: seq<Decl>, fs: seq<Decl>)
    requires ReportDepends(ds)
    ensures Reorders(ds, es) && Reorders(ds, fs) && es != [] && fs != []
    ensures Resolve(es).errors == 0 && Resolve(fs).errors > 0
  {
    StrongIsCounted(ds);
    var j :| 0 <= j < |ds| && Strong(ds[j]) && ds[j].kind != Common;
    es := QuietOrder(ds, j);
    fs := ReadFirst(ds, j);
    ReadFirstReorders(ds, j);
    CountsOfMultiset(ds, es);
    CountsOfMultiset(ds, fs);
    DefinedFirst(fs);
    hide Resolve, MaxRank, StrongCount, SolidCount, FirstDefining, StrongAfterSolid;
    NothingReported(es);
    ClassExactly(es);
    ClassExactly(fs);
    hide Ranked, Absorbed;
  }

  /** Whether an error is reported does not depend on the order of the files exactly when ReportDepends does not hold. */
  lemma ReportOrderExactly(ds: seq<Decl>)
    requires ds != []
    ensures (forall es :: SameReport(ds, es)) <==> !ReportDepends(ds)
  {
    if ReportDepends(ds) {
      var es, fs := ReportDiffers(ds);
      assert !SameReport(ds, es) || !SameReport(ds, fs);
    } else {
      forall es
        ensures SameReport(ds, es)
      {
        ReportKept(ds, es);
      }
    }
  }

  /** A definition between two commons of which one is weak: reported in one order, not in the other. */
  lemma WeakCommonHidesConflict()
    ensures var w, c, d := Decl(Common, true, 4, 4, 0), Decl(Common, false, 4, 4, 1), Decl(Definition, false, 4, 0, 2);
            Resolve([w, c, d]).errors == 0 && Resolve([c, d, w]).errors == 1
  {
    var w, c, d := Decl(Common, true, 4, 4, 0), Decl(Common, false, 4, 4, 1), Decl(Definition, false, 4, 0, 2);
    assert [w, c, d][..2] == [w, c] && [w, c][..1] == [w];
    assert [c, d, w][..2] == [c, d] && [c, d][..1] == [c];
    assert Resolve([w, c]) == Result(First(w), 0);
    assert Resolve([c, d]) == Result(First(c), 1);
  }

  // ---- the size of a common symbol ----

  /** The largest common, weak or strong. */
  function LargestOfAll(ds: seq<Decl>): nat {
    if ds == [] then 0
    else
      var r, d := LargestOfAll(ds[..|ds| - 1]), ds[|ds| - 1];
      if d.kind == Common && d.size > r then d.size else r
  }

  predicate AllCommon(ds: seq<Decl>) { StrongCount(ds) > 0 && SolidCount(ds) == 0 }

  /** What is known of the size when no strong definition is other than common. */
  predicate Sized(ds: seq<Decl>, s: State) {
    && (s.header.kind == Common ==> LargestCommon(ds) <= s.size <= LargestOfAll(ds))
    && (s.header.kind != Common ==> StrongCount(ds) == 0)
    && (FirstDefining(ds) >= 0 && ds[FirstDefining(ds)].kind == Common ==>
          s.header.kind == Common && s.size == LargestOfAll(ds))
    && (FirstDefining(ds) < 0 ==> LargestOfAll(ds) == 0 && s.header.kind == Undefined && !s.defined)
    && (FirstDefining(ds) >= 0 ==> s.defined && s.header.kind != Undefined)
    && (s.header.kind == Definition ==> s.header.weak)
  }

  lemma {:induction false} SizeBounds(ds: seq<Decl>)
    requires ds != [] && SolidCount(ds) == 0
    ensures Sized(ds, Resolve(ds).state)
  {
    var n := |ds| - 1;
    var rest, d := ds[..n], ds[n];
    if n == 0 {
      assert rest == [] && StrongCount(rest) == 0 && FirstDefining(rest) == -1 && LargestOfAll(rest) == 0;
    } else {
      SizeBounds(rest);
      NoStrong(rest);
      assert FirstDefining(ds) == if FirstDefining(rest) >= 0 then FirstDefining(rest) else if d.kind != Undefined then n else -1;
      assert FirstDefining(rest) >= 0 ==> ds[FirstDefining(rest)] == rest[FirstDefining(rest)];
    }
  }

  /** There are a weak definition that is not common, and a weak common larger than every strong one. */
  predicate SizeDepends(ds: seq<Decl>) {
    && AllCommon(ds)
    && (exists i :: 0 <= i < |ds| && WeakSolid(ds[i])) && (exists i :: 0 <= i < |ds| && Larger(ds, ds[i]))
  }

  predicate WeakSolid(d: Decl) { d.kind == Definition && d.weak }

  predicate Larger(ds: seq<Decl>, d: Decl) { WeakCommon(d) && d.size > LargestCommon(ds) }

  lemma {:induction false} LargestOfAllMeaning(ds: seq<Decl>)
    ensures forall i :: 0 <= i < |ds| && ds[i].kind == Common ==> ds[i].size <= LargestOfAll(ds)
    ensures LargestOfAll(ds) > 0 ==> exists i :: 0 <= i < |ds| && ds[i].kind == Common && ds[i].size == LargestOfAll(ds)
  {
    if ds != [] {
      var n := |ds| - 1;
      LargestOfAllMeaning(ds[..n]);
      assert forall i :: 0 <= i < n ==> ds[..n][i] == ds[i];
      if LargestOfAll(ds) > 0 && LargestOfAll(ds) == LargestOfAll(ds[..n]) {
        var i :| 0 <= i < n && ds[..n][i].kind == Common && ds[..n][i].size == LargestOfAll(ds[..n]);
        assert ds[i].size == LargestOfAll(ds);
      }
    }
  }

  lemma {:induction false} LargestCommonMeaning(ds: seq<Decl>)
    ensures forall i :: 0 <= i < |ds| && ds[i].kind == Common && !ds[i].weak ==> ds[i].size <= LargestCommon(ds)
    ensures LargestCommon(ds) <= LargestOfAll(ds)
  {
    if ds != [] {
      LargestCommonMeaning(ds[..|ds| - 1]);
      assert forall i :: 0 <= i < |ds| - 1 ==> ds[..|ds| - 1][i] == ds[i];
    }
  }

  /** A weak common counts for more than the strong ones exactly when one is larger. */
  lemma LargerMeans(ds: seq<Decl>)
    ensures LargestOfAll(ds) > LargestCommon(ds) <==> exists i :: 0 <= i < |ds| && Larger(ds, ds[i])
  {
    LargestOfAllMeaning(ds);
    LargestCommonMeaning(ds);
    hide LargestOfAll, LargestCommon;
  }

  function SizeOf(ds: seq<Decl>): nat
    requires ds != []
  {
    Resolve(ds).state.size
  }

  ghost predicate SameSize(ds: seq<Decl>, es: seq<Decl>) {
    ds != [] && Reorders(ds, es) ==> es != [] && SizeOf(es) == SizeOf(ds)
  }

  /** Without a weak definition the first declaration to count is a common. */
  lemma FirstIsCommon(ds: seq<Decl>)
    requires AllCommon(ds) && forall i :: 0 <= i < |ds| ==> !WeakSolid(ds[i])
    ensures FirstDefining(ds) >= 0 && ds[FirstDefining(ds)].kind == Common
  {
    StrongIsCounted(ds);
    assert !HasSolid(ds);
    var i :| 0 <= i < |ds| && Strong(ds[i]);
    assert ds[i].kind != Undefined;
  }

  lemma SizeIs(ds: seq<Decl>)
    requires AllCommon(ds) && !SizeDepends(ds)
    ensures SizeOf(ds) == LargestOfAll(ds)
  {
    SizeBounds(ds);
    if forall i :: 0 <= i < |ds| ==> !WeakSolid(ds[i]) {
      FirstIsCommon(ds);
    } else {
      LargerMeans(ds);
    }
    hide Resolve, LargestOfAll, LargestCommon, StrongCount, SolidCount;
  }

  lemma SameLargest(ds: seq<Decl>, es: seq<Decl>)
    requires Reorders(ds, es)
    ensures LargestOfAll(ds) == LargestOfAll(es) && LargestCommon(ds) == LargestCommon(es)
    ensures AllCommon(ds) == AllCommon(es) && SizeDepends(ds) == SizeDepends(es)
  {
    SameDeclarations(ds, es);
    CountsOfMultiset(ds, es);
    LargestOfAllMeaning(ds);
    LargestOfAllMeaning(es);
    hide LargestOfAll, LargestCommon, StrongCount, SolidCount;
    assert forall d :: d in ds && d.kind == Common ==> d.size <= LargestOfAll(ds);
    assert forall d :: d in es && d.kind == Common ==> d.size <= LargestOfAll(es);
    assert (exists i :: 0 <= i < |ds| && WeakSolid(ds[i])) <==> exists d :: d in ds && WeakSolid(d);
    assert (exists i :: 0 <= i < |es| && WeakSolid(es[i])) <==> exists d :: d in es && WeakSolid(d);
    assert (exists i :: 0 <= i < |ds| && Larger(ds, ds[i])) <==> exists d :: d in ds && Larger(ds, d);
    assert (exists i :: 0 <= i < |es| && Larger(es, es[i])) <==> exists d :: d in es && Larger(es, d);
  }

  // ---- an order in which only the strong commons count ----

  /** The declarations that are strong, or those that are not. */
  function Picked(ds: seq<Decl>, strong: bool): (es: seq<Decl>)
    ensures forall i :: 0 <= i < |es| ==> es[i] in ds && Strong(es[i]) == strong
  {
    if ds == [] then []
    else
      var n := |ds| - 1;
      assert ds == ds[..n] + [ds[n]];
      Picked(ds[..n], strong) + (if Strong(ds[n]) == strong then [ds[n]] else [])
  }

  lemma {:induction false} PickedReorders(ds: seq<Decl>)
    ensures Reorders(ds, Picked(ds, false) + Picked(ds, true))
    ensures forall d :: d in ds && !Strong(d) ==> d in Picked(ds, false)
  {
    if ds != [] {
      var n := |ds| - 1;
      PickedReorders(ds[..n]);
      assert ds == ds[..n] + [ds[n]];
    }
  }

  /** A weak definition is not displaced by what is not strong. */
  lemma {:induction false} WeakStays(ws: seq<Decl>)
    requires ws != [] && WeakSolid(ws[0]) && forall i :: 0 <= i < |ws| ==> !Strong(ws[i])
    ensures Resolve(ws).state == First(ws[0]) && StrongCount(ws) == 0 && LargestCommon(ws) == 0
  {
    var n := |ws| - 1;
    if n > 0 {
      WeakStays(ws[..n]);
    } else {
      assert ws[..n] == [];
    }
  }

  /** After it only the strong commons count. */
  lemma {:induction false} OnlyStrongCount(ws: seq<Decl>, cs: seq<Decl>)
    requires ws != [] && WeakSolid(ws[0]) && forall i :: 0 <= i < |ws| ==> !Strong(ws[i])
    requires forall i :: 0 <= i < |cs| ==> Strong(cs[i]) && cs[i].kind == Common
    ensures var s := Resolve(ws + cs).state;
            if cs == [] then s == First(ws[0]) && LargestCommon(ws) == 0
            else s.header.kind == Common && s.defined && s.size == LargestCommon(ws + cs)
  {
    var n := |cs| - 1;
    WeakStays(ws);
    if cs == [] {
      assert ws + cs == ws;
    } else {
      var es := ws + cs;
      assert es[..|es| - 1] == ws + cs[..n] && es[|es| - 1] == cs[n];
      OnlyStrongCount(ws, cs[..n]);
      assert cs[..n] == [] ==> ws + cs[..n] == ws;
    }
  }

  lemma SmallOrder(ds: seq<Decl>) returns (es: seq<Decl>)
    requires AllCommon(ds) && exists i :: 0 <= i < |ds| && WeakSolid(ds[i])
    ensures Reorders(ds, es) && es != [] && SizeOf(es) == LargestCommon(ds)
  {
    var i :| 0 <= i < |ds| && WeakSolid(ds[i]);
    var weak, strong := Picked(ds, false), Picked(ds, true);
    PickedReorders(ds);
    StrongIsCounted(ds);
    assert ds[i] in weak;
    var j :| 0 <= j < |weak| && weak[j] == ds[i];
    var ws := ReadFirst(weak, j);
    ReadFirstReorders(weak, j);
    SameDeclarations(weak, ws);
    es := ws + strong;
    assert strong != [] by {
      assert multiset(weak + strong) == multiset(ds);
      StrongSomewhere(ds, weak, strong);
    }
    forall k | 0 <= k < |strong|
      ensures strong[k].kind == Common
    {
      assert strong[k] in ds;
    }
    forall k | 0 <= k < |ws|
      ensures !Strong(ws[k])
    {
      assert ws[k] in weak;
    }
    OnlyStrongCount(ws, strong);
    CountsOfMultiset(ds, es);
  }

  lemma StrongSomewhere(ds: seq<Decl>, weak: seq<Decl>, strong: seq<Decl>)
    requires Reorders(ds, weak + strong) && HasStrong(ds) && forall i :: 0 <= i < |weak| ==> !Strong(weak[i])
    ensures strong != []
  {
    var i :| 0 <= i < |ds| && Strong(ds[i]);
    SameDeclarations(ds, weak + strong);
    assert ds[i] in weak + strong;
  }

  lemma SizeDiffers(ds: seq<Decl>) returns (es: seq<Decl>, fs: seq<Decl>)
    requires SizeDepends(ds)
    ensures Reorders(ds, es) && Reorders(ds, fs) && es != [] && fs != [] && SizeOf(es) < SizeOf(fs)
  {
    es := SmallOrder(ds);
    StrongIsCounted(ds);
    var i :| 0 <= i < |ds| && Strong(ds[i]);
    assert ds[i].kind == Common;
    fs := ReadFirst(ds, i);
    ReadFirstReorders(ds, i);
    SameLargest(ds, fs);
    DefinedFirst(fs);
    SizeBounds(fs);
    LargerMeans(ds);
    hide Resolve, LargestOfAll, LargestCommon, StrongCount, SolidCount, FirstDefining;
  }

  /** When every strong definition is common, the size does not depend on the order exactly when SizeDepends does not hold. */
  lemma SizeOrderExactly(ds: seq<Decl>)
    requires AllCommon(ds)
    ensures (forall es :: SameSize(ds, es)) <==> !SizeDepends(ds)
  {
    hide Resolve, LargestOfAll, LargestCommon, SizeDepends;
    if SizeDepends(ds) {
      var es, fs := SizeDiffers(ds);
      assert !SameSize(ds, es) || !SameSize(ds, fs);
    } else {
      forall es
        ensures SameSize(ds, es)
      {
        if Reorders(ds, es) {
          SameLargest(ds, es);
          SameDeclarations(ds, es);
          SizeIs(ds);
          SizeIs(es);
        }
      }
    }
  }
}
