/**
 Resolving undefined symbols from static libraries: passes over the global symbol table that
 read archive members, until a pass adds no symbol.
 */
module ArchiveResolve {
  import opened SymbolMerge

  datatype Option<T> = None | Some(value: T)

  datatype Entry = Entry(name: string, decl: Decl)

  type Member = seq<Entry>

  type Table = map<string, State>

  /** The index of a library leads from a name to the member that is said to define it. */
  type Archive = map<string, Member>

  /** What the pass looks symbols up in: static libraries in order, and the names of shared ones. */
  datatype Libraries = Libraries(archives: seq<Archive>, shared: set<string>)

  function FindIn(archives: seq<Archive>, name: string): Option<Member> {
    if archives == [] then None
    else if name in archives[0] then Some(archives[0][name])
    else FindIn(archives[1..], name)
  }

  /** LinkerReadSymbol for a global name. */
  function ReadSymbol(t: Table, e: Entry): Table {
    if e.name in t then t[e.name := Redefine(t[e.name], e.decl).state] else t[e.name := First(e.decl)]
  }

  function Load(t: Table, m: Member): Table {
    if m == [] then t else ReadSymbol(Load(t, m[..|m| - 1]), m[|m| - 1])
  }

  /** ResolveUndefined for one symbol; weak references are left alone. */
  function Visit(libs: Libraries, t: Table, name: string): Table {
    if name !in t || t[name].defined || t[name].header.weak then t
    else
      match FindIn(libs.archives, name)
      case Some(m) => Load(t, m)
      case None => if name in libs.shared then t[name := t[name].(defined := true)] else t
  }

  /** One traversal of the table, in the order the hash table gives; it may meet symbols it has just added. */
  function Pass(libs: Libraries, t: Table, order: seq<string>): Table {
    if order == [] then t else Visit(libs, Pass(libs, t, order[..|order| - 1]), order[|order| - 1])
  }

  // ---- what reading keeps ----

  predicate WeakReference(s: State) { !s.defined && s.header.weak }

  /** Symbols stay, stay defined, and never become weak references again. */
  ghost predicate Grows(t: Table, u: Table) {
    forall n :: n in t ==> n in u && (t[n].defined ==> u[n].defined) && (!WeakReference(t[n]) ==> !WeakReference(u[n]))
  }

  lemma RedefineGrows(s: State, d: Decl)
    ensures s.defined ==> Redefine(s, d).state.defined
    ensures d.kind != Undefined ==> Redefine(s, d).state.defined
    ensures !WeakReference(s) ==> !WeakReference(Redefine(s, d).state)
  {
  }

  lemma ReadGrows(t: Table, e: Entry)
    ensures Grows(t, ReadSymbol(t, e)) && e.name in ReadSymbol(t, e)
    ensures e.decl.kind != Undefined ==> ReadSymbol(t, e)[e.name].defined
    ensures ReadSymbol(t, e).Keys == t.Keys + {e.name}
  {
    if e.name in t {
      RedefineGrows(t[e.name], e.decl);
    }
    hide Redefine;
  }

  lemma {:induction false} LoadGrows(t: Table, m: Member)
    ensures Grows(t, Load(t, m))
  {
    if m != [] {
      LoadGrows(t, m[..|m| - 1]);
      ReadGrows(Load(t, m[..|m| - 1]), m[|m| - 1]);
      hide Load, ReadSymbol;
    }
  }

  predicate Defines(m: Member, name: string) {
    exists i :: 0 <= i < |m| && m[i].name == name && m[i].decl.kind != Undefined
  }

  lemma {:induction false} LoadDefines(t: Table, m: Member, name: string)
    requires Defines(m, name)
    ensures name in Load(t, m) && Load(t, m)[name].defined
  {
    var n := |m| - 1;
    ReadGrows(Load(t, m[..n]), m[n]);
    if !(m[n].name == name && m[n].decl.kind != Undefined) {
      var i :| 0 <= i < |m| && m[i].name == name && m[i].decl.kind != Undefined;
      assert m[..n][i] == m[i];
      LoadDefines(t, m[..n], name);
    }
    hide ReadSymbol;
  }

  lemma VisitGrows(libs: Libraries, t: Table, name: string)
    ensures Grows(t, Visit(libs, t, name))
  {
    if name in t && FindIn(libs.archives, name).Some? {
      LoadGrows(t, FindIn(libs.archives, name).value);
    }
    hide Load;
  }

  lemma {:induction false} PassGrows(libs: Libraries, t: Table, order: seq<string>, i: nat)
    requires i <= |order|
    ensures Grows(Pass(libs, t, order[..i]), Pass(libs, t, order))
    decreases |order|
  {
    var n := |order| - 1;
    if i == |order| {
      assert order[..i] == order;
    } else {
      PassGrows(libs, t, order[..n], i);
      assert order[..n][..i] == order[..i];
      VisitGrows(libs, Pass(libs, t, order[..n]), order[n]);
      hide Pass, Visit;
    }
  }

  /** Every name in an index is defined by the member it leads to. */
  predicate Truthful(libs: Libraries) {
    forall a :: 0 <= a < |libs.archives| ==> TruthfulArchive(libs.archives[a])
  }

  predicate TruthfulArchive(a: Archive) { forall n :: n in a ==> Defines(a[n], n) }

  lemma {:induction false} FoundDefines(archives: seq<Archive>, name: string)
    requires (forall a :: 0 <= a < |archives| ==> TruthfulArchive(archives[a])) && FindIn(archives, name).Some?
    ensures Defines(FindIn(archives, name).value, name)
  {
    if name !in archives[0] {
      FoundDefines(archives[1..], name);
    } else {
      assert TruthfulArchive(archives[0]);
    }
  }

  /** Still undefined, not weak, and listed in a library. */
  predicate Missed(libs: Libraries, t: Table, name: string) {
    name in t && !t[name].defined && !t[name].header.weak && FindIn(libs.archives, name).Some?
  }

  /**
   After a pass that met every symbol, one that is missed was still a weak reference when the
   pass began: a member read later in the pass made it a strong one.
   */
  lemma MissedWasWeak(libs: Libraries, t: Table, order: seq<string>, name: string)
    requires Truthful(libs) && (forall n :: n in t ==> n in order)
    requires Missed(libs, Pass(libs, t, order), name) && name in t
    ensures WeakReference(t[name])
  {
    var i :| 0 <= i < |order| && order[i] == name;
    var before, after := Pass(libs, t, order[..i]), Pass(libs, t, order[..i + 1]);
    assert order[..i + 1][..i] == order[..i];
    assert order[..0] == [] && Pass(libs, t, []) == t;
    PassGrows(libs, t, order, i + 1);
    PassGrows(libs, t, order, i);
    PassGrows(libs, t, order[..i], 0);
    assert order[..i][..0] == order[..0];
    assert after == Visit(libs, before, name);
    FoundDefines(libs.archives, name);
    LoadDefines(before, FindIn(libs.archives, name).value, name);
    hide Pass, Load, Defines, FindIn;
  }

  /** What a visit does to a strong reference: it is read from a library, or else left to a shared library that has it. */
  lemma VisitDefines(libs: Libraries, t: Table, name: string)
    requires Truthful(libs) && name in t && !t[name].defined && !t[name].header.weak
    ensures var u := Visit(libs, t, name);
            && name in u && (u[name].defined <==> FindIn(libs.archives, name).Some? || name in libs.shared)
            && (FindIn(libs.archives, name).None? ==>
                  u == t[name := t[name].(defined := name in libs.shared)])
  {
    if FindIn(libs.archives, name).Some? {
      FoundDefines(libs.archives, name);
      LoadDefines(t, FindIn(libs.archives, name).value, name);
    }
    hide Load, FindIn, Defines;
  }

  /** The symbols of a table that is visited are defined, weak, or in no library at all. */
  lemma LeftUndefined(libs: Libraries, t: Table, order: seq<string>, name: string)
    requires Truthful(libs) && name in t && name in order && !WeakReference(t[name])
    ensures name in Pass(libs, t, order)
    ensures !Pass(libs, t, order)[name].defined ==> FindIn(libs.archives, name).None? && name !in libs.shared
  {
    var i :| 0 <= i < |order| && order[i] == name;
    var before, after := Pass(libs, t, order[..i]), Pass(libs, t, order[..i + 1]);
    assert order[..i + 1][..i] == order[..i];
    assert order[..0] == [] && Pass(libs, t, []) == t;
    PassGrows(libs, t, order, i + 1);
    PassGrows(libs, t, order[..i], 0);
    assert order[..i][..0] == order[..0];
    assert after == Visit(libs, before, name);
    if !before[name].defined {
      VisitDefines(libs, before, name);
    }
    hide Pass, Load, Defines, FindIn, Visit;
  }

  // ---- links without weak references ----

  predicate PlainMember(m: Member) {
    forall i :: 0 <= i < |m| ==> m[i].decl.kind != Undefined || !m[i].decl.weak
  }

  predicate PlainArchive(a: Archive) { forall n :: n in a ==> PlainMember(a[n]) }

  predicate PlainLibraries(libs: Libraries) { forall a :: 0 <= a < |libs.archives| ==> PlainArchive(libs.archives[a]) }

  predicate PlainTable(t: Table) { forall n :: n in t ==> !WeakReference(t[n]) }

  lemma {:induction false} LoadPlain(t: Table, m: Member)
    requires PlainTable(t) && PlainMember(m)
    ensures PlainTable(Load(t, m))
  {
    if m != [] {
      var n := |m| - 1;
      LoadPlain(t, m[..n]);
      var u := Load(t, m[..n]);
      assert m[n].decl.kind != Undefined || !m[n].decl.weak;
      if m[n].name in u {
        RedefineGrows(u[m[n].name], m[n].decl);
      }
      hide Redefine;
    }
  }

  lemma {:induction false} FoundPlain(archives: seq<Archive>, name: string)
    requires (forall a :: 0 <= a < |archives| ==> PlainArchive(archives[a])) && FindIn(archives, name).Some?
    ensures PlainMember(FindIn(archives, name).value)
  {
    if name !in archives[0] {
      FoundPlain(archives[1..], name);
    } else {
      assert PlainArchive(archives[0]);
    }
  }

  lemma VisitPlain(libs: Libraries, t: Table, name: string)
    requires PlainLibraries(libs) && PlainTable(t)
    ensures PlainTable(Visit(libs, t, name))
  {
    if name in t && FindIn(libs.archives, name).Some? {
      FoundPlain(libs.archives, name);
      LoadPlain(t, FindIn(libs.archives, name).value);
    }
    hide Load;
  }

  /** With a weak reference that a later member makes strong, the last pass can miss a listed symbol. */
  lemma WeakReferenceMissed()
    ensures exists libs: Libraries, t: Table, order: seq<string> ::
              && Truthful(libs) && (forall n :: n in t ==> n in order)
              && Pass(libs, t, order).Keys == t.Keys && Missed(libs, Pass(libs, t, order), "x")
  {
    var strong, weak := Decl(Undefined, false, 0, 0, 0), Decl(Undefined, true, 0, 0, 0);
    var def := Decl(Definition, false, 0, 0, 1);
    var a: Member, x: Member := [Entry("a", def), Entry("x", strong)], [Entry("x", def)];
    var index: Archive := map["a" := a, "x" := x];
    var libs := Libraries([index], {});
    var t: Table := map["x" := First(weak), "a" := First(strong)];
    var order := ["x", "a"];
    assert TruthfulArchive(index) by {
      assert a[0].name == "a" && x[0].name == "x";
    }
    assert a[..1] == [a[0]] && a[..1][..0] == [];
    assert order[..1] == ["x"] && order[..1][..0] == [];
    assert "x" in t && "a" in t && "x" != "a";
    var t1 := Pass(libs, t, ["x"]);
    assert t1 == t by { assert ["x"][..0] == []; assert Pass(libs, t, []) == t; }
    var t2 := Pass(libs, t, order);
    assert t2 == Load(t, a);
    var u := Load(t, [a[0]]);
    assert u == t["a" := Adopt(def)] by { assert [a[0]][..0] == []; assert Load(t, []) == t; }
    assert t2 == u["x" := First(weak).(header := strong)];
    assert t2.Keys == t.Keys;
    assert FindIn(libs.archives, "x") == Some(x);
    assert Missed(libs, t2, "x");
  }

  // ---- exactly when a symbol can be missed ----

  predicate Wants(m: Member, name: string) {
    exists i :: 0 <= i < |m| && m[i].name == name && m[i].decl.kind == Undefined && !m[i].decl.weak
  }

  /** The member that a leads to needs name and does not define it. */
  predicate Promotes(libs: Libraries, a: string, name: string) {
    var m := FindIn(libs.archives, a);
    m.Some? && Wants(m.value, name) && !Defines(m.value, name)
  }

  /** Some link ends with the name missed: the last pass, from some table and in some order, misses it. */
  ghost predicate MayMiss(libs: Libraries, name: string) {
    exists t: Table, order: seq<string> :: LastPassMisses(libs, t, order, name)
  }

  ghost predicate LastPassMisses(libs: Libraries, t: Table, order: seq<string>, name: string) {
    && (forall n :: n in t ==> n in order)
    && Pass(libs, t, order).Keys == t.Keys && Missed(libs, Pass(libs, t, order), name)
  }

  /** Reading a member makes a weak reference strong exactly when it wants the name and does not define it. */
  lemma {:induction false} LoadPromotes(t: Table, m: Member, name: string)
    requires name in t && WeakReference(t[name])
    ensures name in Load(t, m)
    ensures Load(t, m)[name].defined <==> Defines(m, name)
    ensures !Defines(m, name) ==> (Load(t, m)[name].header.weak <==> !Wants(m, name))
  {
    if m != [] {
      var n := |m| - 1;
      LoadPromotes(t, m[..n], name);
      PrefixDeclares(m, name);
      hide Defines, Wants;
      assert Load(t, m) == ReadSymbol(Load(t, m[..n]), m[n]);
    }
  }

  lemma PrefixDeclares(m: Member, name: string)
    requires m != []
    ensures var n := |m| - 1;
            && (Defines(m, name) <==> Defines(m[..n], name) || (m[n].name == name && m[n].decl.kind != Undefined))
            && (Wants(m, name) <==>
                  Wants(m[..n], name) || (m[n].name == name && m[n].decl.kind == Undefined && !m[n].decl.weak))
  {
    var n := |m| - 1;
    assert m == m[..n] + [m[n]];
    assert forall i :: 0 <= i < n ==> m[..n][i] == m[i];
  }

  /** A weak reference that is strong at the end of a pass was promoted by a member read in it. */
  lemma {:induction false} PassPromotes(libs: Libraries, t: Table, order: seq<string>, name: string)
    requires name in t && WeakReference(t[name])
    ensures name in Pass(libs, t, order)
    ensures !Pass(libs, t, order)[name].defined ==>
              WeakReference(Pass(libs, t, order)[name]) || exists a :: Promotes(libs, a, name)
  {
    if order != [] {
      var n := |order| - 1;
      var u := Pass(libs, t, order[..n]);
      PassPromotes(libs, t, order[..n], name);
      VisitGrows(libs, u, order[n]);
      if FindIn(libs.archives, order[n]).Some? && WeakReference(u[name]) {
        LoadPromotes(u, FindIn(libs.archives, order[n]).value, name);
        assert !Defines(FindIn(libs.archives, order[n]).value, name) && Wants(FindIn(libs.archives, order[n]).value, name) ==>
            Promotes(libs, order[n], name);
      }
      hide Load, Defines, Wants, FindIn;
    }
  }

  /** A pass over symbols that are defined or weak changes nothing. */
  lemma {:induction false} NothingToDo(libs: Libraries, t: Table, order: seq<string>)
    requires forall i :: 0 <= i < |order| ==> order[i] in t && (t[order[i]].defined || t[order[i]].header.weak)
    ensures Pass(libs, t, order) == t
  {
    if order != [] {
      NothingToDo(libs, t, order[..|order| - 1]);
    }
  }

  function OtherNames(m: Member, a: string): (r: seq<string>)
    ensures forall i :: 0 <= i < |m| && m[i].name != a ==> m[i].name in r
    ensures forall i :: 0 <= i < |r| ==> r[i] != a && r[i] in MemberNames(m)
  {
    if m == [] then []
    else
      var rest := OtherNames(m[1..], a);
      assert forall i :: 1 <= i < |m| ==> m[i] == m[1..][i - 1];
      assert MemberNames(m[1..]) <= MemberNames(m);
      if m[0].name == a then rest else [m[0].name] + rest
  }

  /** A table in which a is a strong reference, and name and the rest of what m declares are weak ones. */
  function Awaiting(m: Member, a: string, name: string): (t: Table)
    ensures t.Keys == MemberNames(m) + {a, name} && WeakReference(t[name])
    ensures forall k :: k in t ==> !t[k].defined && t[k].header.kind == Undefined && (t[k].header.weak <==> k != a || k == name)
  {
    var weak, strong := First(Decl(Undefined, true, 0, 0, 0)), First(Decl(Undefined, false, 0, 0, 0));
    map k | k in MemberNames(m) + {a, name} :: if k == a && k != name then strong else weak
  }

  lemma OrderMeetsAll(m: Member, a: string, name: string)
    ensures forall k :: k in Awaiting(m, a, name) ==> k in OtherNames(m, a) + [name] + [a]
  {
    forall k | k in MemberNames(m)
      ensures k in OtherNames(m, a) + [name] + [a]
    {
      var i :| 0 <= i < |m| && m[i].name == k;
    }
  }

  lemma OthersWait(libs: Libraries, m: Member, a: string, name: string)
    requires a != name
    ensures Pass(libs, Awaiting(m, a, name), OtherNames(m, a) + [name]) == Awaiting(m, a, name)
  {
    NothingToDo(libs, Awaiting(m, a, name), OtherNames(m, a) + [name]);
  }

  lemma LoadedLast(libs: Libraries, t: Table, others: seq<string>, a: string)
    requires Pass(libs, t, others) == t && a in t && !t[a].defined && !t[a].header.weak
    requires FindIn(libs.archives, a).Some?
    ensures Pass(libs, t, others + [a]) == Load(t, FindIn(libs.archives, a).value)
  {
    hide Load, FindIn;
    assert (others + [a])[..|others|] == others;
  }

  lemma PromotedLast(t: Table, m: Member, a: string, name: string)
    requires t == Awaiting(m, a, name) && Wants(m, name) && !Defines(m, name)
    ensures Load(t, m).Keys == t.Keys && name in t
    ensures !Load(t, m)[name].defined && !Load(t, m)[name].header.weak
  {
    hide *;
    LoadKeys(t, m);
    LoadPromotes(t, m, name);
  }

  /** The table and the order of a link that misses the name. */
  lemma MissingLink(libs: Libraries, a: string, name: string)
    requires Truthful(libs) && FindIn(libs.archives, name).Some? && Promotes(libs, a, name)
    ensures var m := FindIn(libs.archives, a).value;
            LastPassMisses(libs, Awaiting(m, a, name), OtherNames(m, a) + [name] + [a], name)
  {
    var m := FindIn(libs.archives, a).value;
    FoundDefines(libs.archives, a);
    var t, others := Awaiting(m, a, name), OtherNames(m, a) + [name];
    OthersWait(libs, m, a, name);
    OrderMeetsAll(m, a, name);
    LoadedLast(libs, t, others, a);
    PromotedLast(t, m, a, name);
    hide Load, Defines, Wants, FindIn, OtherNames, Awaiting, MemberNames, Pass, TruthfulArchive;
  }

  /** The multiple definitions reported as a member is read. */
  function LoadErrors(t: Table, m: Member): nat {
    if m == [] then 0
    else
      var rest, e := m[..|m| - 1], m[|m| - 1];
      var u := Load(t, rest);
      LoadErrors(t, rest) + (if e.name in u && Redefine(u[e.name], e.decl).error then 1 else 0)
  }

  /** The symbol table of an object has each global name once. */
  predicate NamedOnce(m: Member) { forall i, j :: 0 <= i < j < |m| ==> m[i].name != m[j].name }

  /** A name that no entry read so far has is as it was. */
  lemma {:induction false} LoadLeaves(t: Table, m: Member, name: string)
    requires forall i :: 0 <= i < |m| ==> m[i].name != name
    ensures name in Load(t, m) <==> name in t
    ensures name in t ==> Load(t, m)[name] == t[name]
  {
    if m != [] {
      LoadLeaves(t, m[..|m| - 1], name);
    }
  }

  /** Reading a member into a table that defines none of its names reports nothing. */
  lemma {:induction false} NothingReported(t: Table, m: Member)
    requires NamedOnce(m) && forall i :: 0 <= i < |m| && m[i].name in t ==> !t[m[i].name].defined
    ensures LoadErrors(t, m) == 0
  {
    if m != [] {
      var rest := m[..|m| - 1];
      assert forall i :: 0 <= i < |rest| ==> rest[i] == m[i];
      NothingReported(t, rest);
      LoadLeaves(t, rest, m[|m| - 1].name);
      hide Load;
    }
  }

  /** A second strong definition is reported when it is read. */
  lemma {:induction false} SecondIsReported(t: Table, m: Member, i: nat)
    requires i < |m| && Strong(m[i].decl) && m[i].decl.kind == Definition
    requires m[i].name in t && t[m[i].name].defined && !t[m[i].name].header.weak
    ensures LoadErrors(t, m) > 0
  {
    var n := |m| - 1;
    if i < n {
      SecondIsReported(t, m[..n], i);
    } else {
      StaysStrong(t, m[..n], m[n].name);
    }
  }

  lemma {:induction false} StaysStrong(t: Table, m: Member, name: string)
    requires name in t && t[name].defined && !t[name].header.weak
    ensures name in Load(t, m) && Load(t, m)[name].defined && !Load(t, m)[name].header.weak
  {
    if m != [] {
      StaysStrong(t, m[..|m| - 1], name);
    }
  }

  /** The errors of a pass are those of the members it reads, each read in the table as it is then. */
  lemma PassReports(libs: Libraries, t: Table, order: seq<string>, a: string)
    requires FindIn(libs.archives, a).Some? && a in Pass(libs, t, order)
    requires !Pass(libs, t, order)[a].defined && !Pass(libs, t, order)[a].header.weak
    ensures PassErrors(libs, t, order + [a])
         == PassErrors(libs, t, order) + LoadErrors(Pass(libs, t, order), FindIn(libs.archives, a).value)
  {
    assert (order + [a])[..|order|] == order;
    hide FindIn, LoadErrors, Pass;
  }

  function VisitErrors(libs: Libraries, t: Table, name: string): nat {
    if name !in t || t[name].defined || t[name].header.weak then 0
    else
      match FindIn(libs.archives, name)
      case Some(m) => LoadErrors(t, m)
      case None => 0
  }

  function PassErrors(libs: Libraries, t: Table, order: seq<string>): nat {
    if order == [] then 0
    else
      var rest := order[..|order| - 1];
      PassErrors(libs, t, rest) + VisitErrors(libs, Pass(libs, t, rest), order[|order| - 1])
  }

  lemma {:induction false} NoneReported(libs: Libraries, t: Table, order: seq<string>)
    requires forall i :: 0 <= i < |order| ==> order[i] in t && (t[order[i]].defined || t[order[i]].header.weak)
    ensures PassErrors(libs, t, order) == 0
  {
    if order != [] {
      NothingToDo(libs, t, order[..|order| - 1]);
      NoneReported(libs, t, order[..|order| - 1]);
    }
  }

  ghost predicate OnceEach(libs: Libraries) {
    forall a :: FindIn(libs.archives, a).Some? ==> NamedOnce(FindIn(libs.archives, a).value)
  }

  /** The missing link is an ordinary one: nothing in it is defined twice. */
  lemma MissingLinkIsClean(libs: Libraries, a: string, name: string)
    requires FindIn(libs.archives, a).Some? && NamedOnce(FindIn(libs.archives, a).value) && a != name
    ensures var m := FindIn(libs.archives, a).value;
            PassErrors(libs, Awaiting(m, a, name), OtherNames(m, a) + [name] + [a]) == 0
  {
    var m := FindIn(libs.archives, a).value;
    var t, others := Awaiting(m, a, name), OtherNames(m, a) + [name];
    assert (others + [a])[..|others|] == others;
    OthersWait(libs, m, a, name);
    NothingReported(t, m);
    NoneReported(libs, t, others);
    hide LoadErrors, FindIn, OtherNames, Awaiting, Pass, NamedOnce;
  }

  /** Some link ends with the name missed and no multiple definition reported. */
  ghost predicate MayMissCleanly(libs: Libraries, name: string) {
    exists t: Table, order: seq<string> :: LastPassMisses(libs, t, order, name) && PassErrors(libs, t, order) == 0
  }

  /** With true indexes a listed name can be missed exactly when a listed member needs it and leaves it undefined. */
  lemma MissesExactly(libs: Libraries, name: string)
    requires Truthful(libs)
    ensures MayMiss(libs, name) <==> FindIn(libs.archives, name).Some? && exists a :: Promotes(libs, a, name)
    ensures OnceEach(libs) ==> (MayMissCleanly(libs, name) <==> MayMiss(libs, name))
  {
    hide Load, Defines, Wants, FindIn, OtherNames, Awaiting, MemberNames, Pass, Truthful, PassErrors, LastPassMisses, NamedOnce;
    if FindIn(libs.archives, name).Some? && exists a :: Promotes(libs, a, name) {
      var a :| Promotes(libs, a, name);
      MissingLink(libs, a, name);
      if OnceEach(libs) {
        OtherThanMissed(libs, a, name);
        MissingLinkIsClean(libs, a, name);
      }
    }
    if MayMiss(libs, name) {
      var t: Table, order: seq<string> :| LastPassMisses(libs, t, order, name);
      MissedWasPromoted(libs, t, order, name);
    }
  }

  lemma OtherThanMissed(libs: Libraries, a: string, name: string)
    requires Truthful(libs) && Promotes(libs, a, name)
    ensures a != name
  {
    FoundDefines(libs.archives, a);
  }

  lemma MissedWasPromoted(libs: Libraries, t: Table, order: seq<string>, name: string)
    requires Truthful(libs) && LastPassMisses(libs, t, order, name)
    ensures FindIn(libs.archives, name).Some? && exists a :: Promotes(libs, a, name)
  {
    hide Load, FindIn, Pass, Truthful, Promotes;
    MissedWasWeak(libs, t, order, name);
    PassPromotes(libs, t, order, name);
  }

  // ---- the loop ----

  function MemberNames(m: Member): set<string> { set i | 0 <= i < |m| :: m[i].name }

  function ArchiveNames(a: Archive): set<string> { set n, k | n in a && k in MemberNames(a[n]) :: k }

  function AllNames(archives: seq<Archive>): set<string> {
    if archives == [] then {} else ArchiveNames(archives[0]) + AllNames(archives[1..])
  }

  lemma {:induction false} LoadKeys(t: Table, m: Member)
    ensures t.Keys <= Load(t, m).Keys <= t.Keys + MemberNames(m)
  {
    if m != [] {
      var n := |m| - 1;
      LoadKeys(t, m[..n]);
      ReadGrows(Load(t, m[..n]), m[n]);
      assert MemberNames(m[..n]) <= MemberNames(m) by {
        assert forall i :: 0 <= i < n ==> m[..n][i] == m[i];
      }
      assert m[n].name in MemberNames(m);
      hide ReadSymbol;
    }
  }

  lemma {:induction false} FoundKeys(archives: seq<Archive>, name: string)
    requires FindIn(archives, name).Some?
    ensures MemberNames(FindIn(archives, name).value) <= AllNames(archives)
  {
    if name !in archives[0] {
      FoundKeys(archives[1..], name);
    } else {
      assert MemberNames(archives[0][name]) <= ArchiveNames(archives[0]);
    }
  }

  lemma VisitKeys(libs: Libraries, t: Table, name: string)
    ensures t.Keys <= Visit(libs, t, name).Keys <= t.Keys + AllNames(libs.archives)
  {
    if name in t && FindIn(libs.archives, name).Some? {
      FoundKeys(libs.archives, name);
      LoadKeys(t, FindIn(libs.archives, name).value);
    }
    hide Load, MemberNames, AllNames;
  }

  lemma SubsetSizes(a: set<string>, b: set<string>)
    requires a <= b
    ensures |a| <= |b| && (|a| == |b| ==> a == b)
  {
    assert b == a + (b - a);
  }

  class Linker {
    const libs: Libraries
    var table: Table

    constructor (libs: Libraries, table: Table)
      ensures this.libs == libs && this.table == table
    {
      this.libs, this.table := libs, table;
    }

    method ReadMember(m: Member)
      modifies this
      ensures table == Load(old(table), m)
    {
      var i := 0;
      while i < |m|
        invariant 0 <= i <= |m| && table == Load(old(table), m[..i])
      {
        assert m[..i + 1][..i] == m[..i];
        table := ReadSymbol(table, m[i]);
        i := i + 1;
      }
      assert m[..i] == m;
    }

    method ResolveUndefined(name: string)
      modifies this
      ensures table == Visit(libs, old(table), name)
    {
      if name !in table || table[name].defined || table[name].header.weak {
        return;
      }
      match FindIn(libs.archives, name)
      case Some(m) => ReadMember(m);
      case None =>
        if name in libs.shared {
          table := table[name := table[name].(defined := true)];
        }
    }

    method TraverseTable(order: seq<string>)
      modifies this
      ensures table == Pass(libs, old(table), order)
      ensures old(table).Keys <= table.Keys <= old(table).Keys + AllNames(libs.archives)
      ensures PlainLibraries(libs) && PlainTable(old(table)) ==> PlainTable(table)
    {
      hide Visit, PlainLibraries, PlainTable, AllNames;
      var i := 0;
      while i < |order|
        invariant 0 <= i <= |order| && table == Pass(libs, old(table), order[..i])
        invariant old(table).Keys <= table.Keys <= old(table).Keys + AllNames(libs.archives)
        invariant PlainLibraries(libs) && PlainTable(old(table)) ==> PlainTable(table)
      {
        assert order[..i + 1][..i] == order[..i];
        VisitKeys(libs, table, order[i]);
        if PlainLibraries(libs) && PlainTable(table) {
          VisitPlain(libs, table, order[i]);
        }
        ResolveUndefined(order[i]);
        i := i + 1;
      }
      assert order[..i] == order;
    }

    /** order gives the traversal of each pass, which meets every symbol that is there when it begins. */
    method ResolveUndefinedSymbols(order: Table -> seq<string>, entry: string) returns (ghost last: Table)
      requires Truthful(libs) && forall t: Table, n :: n in t ==> n in order(t)
      modifies this
      ensures last.Keys == table.Keys && table == Pass(libs, last, order(last))
      ensures forall n :: Missed(libs, table, n) ==>
                n in last && WeakReference(last[n]) && exists a :: Promotes(libs, a, n)
      ensures PlainLibraries(libs) && PlainTable(old(table)) ==>
                forall n :: n in table && !table[n].defined ==> FindIn(libs.archives, n).None? && n !in libs.shared
    {
      hide Visit, Pass, PlainLibraries, Truthful, Load, AllNames;
      match FindIn(libs.archives, entry) {
        case Some(m) =>
          if PlainLibraries(libs) && PlainTable(table) {
            EntryPlain(entry);
          }
          ReadMember(m);
        case None =>
      }
      ghost var plain := PlainLibraries(libs) && PlainTable(table);
      ghost var names := table.Keys + AllNames(libs.archives);
      var more := true;
      last := table;
      while more
        invariant table.Keys <= names && (plain ==> PlainTable(table))
        invariant !more ==> last.Keys == table.Keys && table == Pass(libs, last, order(last)) && (plain ==> PlainTable(last))
        decreases |names - table.Keys|, if more then 1 else 0
      {
        last := table;
        var oldCount := |table|;
        TraverseTable(order(table));
        SubsetSizes(last.Keys, table.Keys);
        MoreNames(names, last.Keys, table.Keys);
        more := |table| != oldCount;
      }
      forall n | Missed(libs, table, n)
        ensures n in last && WeakReference(last[n]) && exists a :: Promotes(libs, a, n)
      {
        MissedWasWeak(libs, last, order(last), n);
        PassPromotes(libs, last, order(last), n);
      }
      if plain {
        forall n | n in table && !table[n].defined
          ensures n !in libs.shared
        {
          NotWeak(last, n);
          LeftUndefined(libs, last, order(last), n);
        }
      }
    }

    lemma EntryPlain(entry: string)
      requires PlainLibraries(libs) && PlainTable(table) && FindIn(libs.archives, entry).Some?
      ensures PlainTable(Load(table, FindIn(libs.archives, entry).value))
    {
      FoundPlain(libs.archives, entry);
      LoadPlain(table, FindIn(libs.archives, entry).value);
    }

    lemma NotWeak(t: Table, n: string)
      requires PlainTable(t) && n in t
      ensures !WeakReference(t[n])
    {
    }

    lemma MoreNames(names: set<string>, before: set<string>, after: set<string>)
      requires before <= after <= names
      ensures |names - after| <= |names - before| && (|before| != |after| ==> |names - after| < |names - before|)
    {
      assert names - before == (names - after) + (after - before);
      assert after == before + (after - before);
    }
  }
}
