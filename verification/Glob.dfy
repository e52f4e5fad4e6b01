/**
 The patterns of linker scripts: the matcher with its mixed loops and recursion, against the
 language a pattern denotes.
 */
module Glob {

  /** The code of a character other than the terminating zero; a host's char may be signed. */
  type code = x: int | x != 0 witness 1

  type Text = seq<code>

  const STAR: code := 42
  const QUERY: code := 63
  const OPEN: code := 91
  const CLOSE: code := 93
  const CARET: code := 94
  const BANG: code := 33
  const DASH: code := 45

  // ---- the language of a pattern ----

  datatype Range = Range(low: code, high: code)

  datatype Item = AnyText | AnyChar | Class(negate: bool, ranges: seq<Range>) | Literal(c: code)

  /** The place of the first c from i on, or the length. */
  function IndexOf(s: Text, c: code, i: nat): (r: nat)
    requires i <= |s|
    ensures i <= r <= |s| && (r < |s| ==> s[r] == c)
    ensures forall k :: i <= k < r ==> s[k] != c
    decreases |s| - i
  {
    if i == |s| || s[i] == c then i else IndexOf(s, c, i + 1)
  }

  /** The members of a class: ranges a-b, and single characters. */
  function Ranges(body: Text): seq<Range> {
    if body == [] then []
    else if |body| > 2 && body[1] == DASH then [Range(body[0], body[2])] + Ranges(body[3..])
    else [Range(body[0], body[0])] + Ranges(body[1..])
  }

  /** Whether the class that opens at p excludes its members, when it closes at end. */
  predicate Negated(pattern: Text, p: nat, end: nat)
    requires p < end <= |pattern|
  {
    p + 1 < end && (pattern[p + 1] == CARET || pattern[p + 1] == BANG)
  }

  /** The item at the start of a pattern, and where the next one begins. */
  function ItemAt(pattern: Text, p: nat): (r: (Item, nat))
    requires p < |pattern|
    ensures p < r.1 <= |pattern|
  {
    if pattern[p] == STAR then (AnyText, p + 1)
    else if pattern[p] == QUERY then (AnyChar, p + 1)
    else if pattern[p] == OPEN then
      var end := IndexOf(pattern, CLOSE, p);
      if end == |pattern| then (Literal(OPEN), p + 1)
      else
        var negate := Negated(pattern, p, end);
        (Class(negate, Ranges(pattern[p + (if negate then 2 else 1)..end])), end + 1)
    else (Literal(pattern[p]), p + 1)
  }

  function Items(pattern: Text, p: nat): seq<Item>
    requires p <= |pattern|
    decreases |pattern| - p
  {
    if p == |pattern| then [] else [ItemAt(pattern, p).0] + Items(pattern, ItemAt(pattern, p).1)
  }

  predicate InRanges(ranges: seq<Range>, c: int) {
    exists i :: 0 <= i < |ranges| && ranges[i].low <= c <= ranges[i].high
  }

  predicate Admits(item: Item, c: code) {
    match item
    case AnyText => false
    case AnyChar => true
    case Class(negate, ranges) => InRanges(ranges, c) != negate
    case Literal(d) => c == d
  }

  predicate PartOk(item: Item, part: Text) {
    item == AnyText || (|part| == 1 && Admits(item, part[0]))
  }

  function Concat(parts: seq<Text>): Text {
    if parts == [] then [] else parts[0] + Concat(parts[1..])
  }

  /** The name cut into one part for each item, each in that item's language. */
  ghost predicate Cut(items: seq<Item>, parts: seq<Text>, name: Text) {
    && |parts| == |items| && Concat(parts) == name
    && forall i :: 0 <= i < |items| ==> PartOk(items[i], parts[i])
  }

  ghost predicate InLanguage(items: seq<Item>, name: Text) {
    exists parts :: Cut(items, parts, name)
  }

  lemma NoItems(name: Text)
    ensures InLanguage([], name) <==> name == []
  {
    if name == [] {
      assert Cut([], [], name);
    }
  }

  lemma CutTail(items: seq<Item>, parts: seq<Text>, name: Text)
    requires items != [] && Cut(items, parts, name)
    ensures |parts[0]| <= |name| && name[..|parts[0]|] == parts[0]
    ensures PartOk(items[0], parts[0]) && Cut(items[1..], parts[1..], name[|parts[0]|..])
  {
    assert name == parts[0] + Concat(parts[1..]);
    forall i | 0 <= i < |items[1..]|
      ensures PartOk(items[1..][i], parts[1..][i])
    {
      assert PartOk(items[i + 1], parts[i + 1]);
    }
  }

  lemma CutExtends(items: seq<Item>, parts: seq<Text>, name: Text, k: nat)
    requires items != [] && k <= |name| && PartOk(items[0], name[..k]) && Cut(items[1..], parts, name[k..])
    ensures Cut(items, [name[..k]] + parts, name)
  {
    var all := [name[..k]] + parts;
    assert all[1..] == parts && name == name[..k] + name[k..];
    forall i | 0 <= i < |items|
      ensures PartOk(items[i], all[i])
    {
      if i > 0 {
        assert PartOk(items[1..][i - 1], parts[i - 1]);
      }
    }
  }

  /** A star takes any number of characters. */
  lemma StarLanguage(items: seq<Item>, name: Text)
    requires items != [] && items[0] == AnyText
    ensures InLanguage(items, name) <==> exists k :: 0 <= k <= |name| && InLanguage(items[1..], name[k..])
  {
    if InLanguage(items, name) {
      var parts :| Cut(items, parts, name);
      CutTail(items, parts, name);
      assert InLanguage(items[1..], name[|parts[0]|..]);
    }
    if k :| 0 <= k <= |name| && InLanguage(items[1..], name[k..]) {
      var parts :| Cut(items[1..], parts, name[k..]);
      CutExtends(items, parts, name, k);
    }
  }

  /** Every other item takes one character that it admits. */
  lemma CharLanguage(items: seq<Item>, name: Text)
    requires items != [] && items[0] != AnyText
    ensures InLanguage(items, name) <==> name != [] && Admits(items[0], name[0]) && InLanguage(items[1..], name[1..])
  {
    if InLanguage(items, name) {
      var parts :| Cut(items, parts, name);
      CutTail(items, parts, name);
      assert InLanguage(items[1..], name[1..]);
    }
    if name != [] && Admits(items[0], name[0]) && InLanguage(items[1..], name[1..]) {
      var parts :| Cut(items[1..], parts, name[1..]);
      CutExtends(items, parts, name, 1);
    }
  }

  // ---- what the characters of a pattern denote ----

  /** name is in the language of the pattern from p on. */
  ghost predicate Denotes(pattern: Text, p: nat, name: Text)
    requires p <= |pattern|
  {
    InLanguage(Items(pattern, p), name)
  }

  /** An empty pattern denotes the empty name, a star any prefix, a question mark any character. */
  lemma WildcardsDenote(pattern: Text, p: nat, name: Text)
    requires p <= |pattern|
    ensures p == |pattern| ==> (Denotes(pattern, p, name) <==> name == [])
    ensures p < |pattern| && pattern[p] == STAR ==>
              (Denotes(pattern, p, name) <==> exists k :: 0 <= k <= |name| && Denotes(pattern, p + 1, name[k..]))
    ensures p < |pattern| && pattern[p] == QUERY ==>
              (Denotes(pattern, p, name) <==> name != [] && Denotes(pattern, p + 1, name[1..]))
  {
    var items := Items(pattern, p);
    if p == |pattern| {
      NoItems(name);
    } else if pattern[p] == STAR {
      StarLanguage(items, name);
    } else if pattern[p] == QUERY {
      CharLanguage(items, name);
    }
    hide InLanguage;
  }

  /** Every character but these, and a bracket that is not closed, denotes itself. */
  lemma CharactersDenote(pattern: Text, p: nat, name: Text)
    requires p < |pattern| && pattern[p] != STAR && pattern[p] != QUERY
    requires pattern[p] == OPEN ==> CLOSE !in pattern[p..]
    ensures Denotes(pattern, p, name) <==> name != [] && name[0] == pattern[p] && Denotes(pattern, p + 1, name[1..])
  {
    forall k | p <= k < |pattern| && pattern[p] == OPEN
      ensures pattern[k] != CLOSE
    {
      assert pattern[p..][k - p] == pattern[k];
    }
    CharLanguage(Items(pattern, p), name);
    hide InLanguage;
  }

  /** c is a member of the class body: as one of its characters, or between the ends of a range. */
  predicate Member(body: Text, c: code) {
    if body == [] then false
    else if |body| > 2 && body[1] == DASH then body[0] <= c <= body[2] || Member(body[3..], c)
    else c == body[0] || Member(body[1..], c)
  }

  lemma {:induction false} MembersInRanges(body: Text, c: code)
    ensures InRanges(Ranges(body), c) <==> Member(body, c)
  {
    if body != [] {
      var n := if |body| > 2 && body[1] == DASH then 3 else 1;
      MembersInRanges(body[n..], c);
      FirstRange(Range(body[0], if n == 3 then body[2] else body[0]), Ranges(body[n..]), c);
      hide InRanges;
    }
  }

  /** A closed bracket denotes one character: a member, or after ^ or ! one that is not. */
  lemma ClassesDenote(pattern: Text, p: nat, end: nat, name: Text)
    requires p < end < |pattern| && pattern[p] == OPEN && pattern[end] == CLOSE
    requires forall k :: p <= k < end ==> pattern[k] != CLOSE
    ensures var inverted := pattern[p + 1] == CARET || pattern[p + 1] == BANG;
            var body := if inverted then pattern[p + 2..end] else pattern[p + 1..end];
            Denotes(pattern, p, name) <==>
              name != [] && Member(body, name[0]) != inverted && Denotes(pattern, end + 1, name[1..])
  {
    var inverted := pattern[p + 1] == CARET || pattern[p + 1] == BANG;
    var body := if inverted then pattern[p + 2..end] else pattern[p + 1..end];
    assert IndexOf(pattern, CLOSE, p) == end;
    assert Negated(pattern, p, end) <==> inverted;
    assert ItemAt(pattern, p) == (Class(inverted, Ranges(body)), end + 1);
    CharLanguage(Items(pattern, p), name);
    if name != [] {
      MembersInRanges(body, name[0]);
    }
    hide InLanguage, InRanges, Ranges, Member;
  }

  // ---- the matcher ----

  lemma RangesAt(pattern: Text, p: nat, end: nat, c: int)
    requires p < end <= |pattern|
    ensures p + 2 < end && pattern[p + 1] == DASH ==>
              (InRanges(Ranges(pattern[p..end]), c) <==>
                 pattern[p] <= c <= pattern[p + 2] || InRanges(Ranges(pattern[p + 3..end]), c))
    ensures !(p + 2 < end && pattern[p + 1] == DASH) ==>
              (InRanges(Ranges(pattern[p..end]), c) <==> c == pattern[p] || InRanges(Ranges(pattern[p + 1..end]), c))
  {
    var body := pattern[p..end];
    if p + 2 < end && pattern[p + 1] == DASH {
      assert body[3..] == pattern[p + 3..end];
      FirstRange(Range(body[0], body[2]), Ranges(body[3..]), c);
    } else {
      assert body[1..] == pattern[p + 1..end];
      FirstRange(Range(body[0], body[0]), Ranges(body[1..]), c);
    }
  }

  lemma FirstRange(first: Range, rest: seq<Range>, c: int)
    ensures InRanges([first] + rest, c) <==> first.low <= c <= first.high || InRanges(rest, c)
  {
    var all := [first] + rest;
    if first.low <= c <= first.high {
      assert all[0].low <= c <= all[0].high;
    }
    if i :| 0 <= i < |rest| && rest[i].low <= c <= rest[i].high {
      assert all[i + 1].low <= c <= all[i + 1].high;
    }
  }

  /** The class that opens at p, on the character at n; without a closing bracket it is a literal. */
  method PatternCharClassMatches(pattern: Text, p: nat, name: Text, n: nat) returns (matched: bool, rest: nat)
    requires p < |pattern| && pattern[p] == OPEN && n <= |name|
    ensures rest == ItemAt(pattern, p).1
    ensures matched <==> n < |name| && Admits(ItemAt(pattern, p).0, name[n])
  {
    var end := IndexOf(pattern, CLOSE, p);
    if end == |pattern| {
      return n < |name| && name[n] == OPEN, p + 1;
    }
    var negate := pattern[p + 1] == CARET || pattern[p + 1] == BANG;
    var q := p + (if negate then 2 else 1);
    var found := false;
    var c: int := if n < |name| then name[n] else 0;
    ghost var members := Ranges(pattern[q..end]);
    while q < end
      invariant p < q <= end
      invariant found || InRanges(Ranges(pattern[q..end]), c) <==> InRanges(members, c)
    {
      RangesAt(pattern, q, end, c);
      if q + 2 < end && pattern[q + 1] == DASH {
        if c >= pattern[q] && c <= pattern[q + 2] {
          found := true;
        }
        q := q + 3;
      } else {
        if c == pattern[q] {
          found := true;
        }
        q := q + 1;
      }
    }
    if negate {
      found := !found;
    }
    matched, rest := n < |name| && found, end + 1;
  }

  lemma SuffixTails(name: Text, n: nat)
    requires n <= |name|
    ensures forall k :: 0 <= k <= |name| - n ==> name[n..][k..] == name[n + k..]
    ensures n < |name| ==> name[n..][0] == name[n]
  {
  }

  /** Matching holds exactly of the names in the pattern's language; it ends for every pattern and name. */
  method PatternMatch(pattern: Text, p0: nat, name: Text, n0: nat) returns (matched: bool)
    requires p0 <= |pattern| && n0 <= |name|
    ensures matched <==> InLanguage(Items(pattern, p0), name[n0..])
    decreases |pattern| - p0, 1
  {
    var p, n := p0, n0;
    while p < |pattern|
      invariant p0 <= p <= |pattern| && n0 <= n <= |name|
      invariant InLanguage(Items(pattern, p0), name[n0..]) <==> InLanguage(Items(pattern, p), name[n..])
      decreases |pattern| - p
    {
      SuffixTails(name, n);
      if pattern[p] == STAR {
        StarLanguage(Items(pattern, p), name[n..]);
        if p + 1 == |pattern| {
          assert name[n..][|name| - n..] == [];
          NoItems([]);
          return true;
        }
        matched := StarMatches(pattern, p, name, n);
        return;
      }
      CharLanguage(Items(pattern, p), name[n..]);
      if pattern[p] == QUERY {
        if n == |name| {
          return false;
        }
        p, n := p + 1, n + 1;
        continue;
      }
      if pattern[p] == OPEN {
        var taken, rest := PatternCharClassMatches(pattern, p, name, n);
        if !taken {
          return false;
        }
        p, n := rest, n + 1;
        continue;
      }
      if n == |name| || name[n] != pattern[p] {
        return false;
      }
      p, n := p + 1, n + 1;
    }
    NoItems(name[n..]);
    matched := n == |name|;
  }

  /** The rest of the pattern is tried at every place of the name. */
  method StarMatches(pattern: Text, p: nat, name: Text, n: nat) returns (matched: bool)
    requires p < |pattern| && pattern[p] == STAR && n <= |name|
    ensures matched <==> exists k :: 0 <= k <= |name| - n && InLanguage(Items(pattern, p + 1), name[n..][k..])
    decreases |pattern| - p, 0
  {
    SuffixTails(name, n);
    var s := n;
    while true
      invariant n <= s <= |name|
      invariant forall k :: 0 <= k < s - n ==> !InLanguage(Items(pattern, p + 1), name[n..][k..])
      decreases |name| - s
    {
      matched := PatternMatch(pattern, p + 1, name, s);
      assert name[s..] == name[n..][s - n..];
      if matched {
        return true;
      }
      if s == |name| {
        return false;
      }
      s := s + 1;
    }
  }

  // ---- patterns of the configuration ----

  const COMMON: Text := [67, 79, 77, 77, 79, 78]
  const BSS: Text := [46, 98, 115, 115]
  const DOT_COMMON: Text := [46, 99, 111, 109, 109, 111, 110]

  /** COMMON stands for the three places of common symbols; every other pattern is matched. */
  ghost predicate Selects(pattern: Text, name: Text) {
    if pattern == COMMON then name == COMMON || name == BSS || name == DOT_COMMON
    else InLanguage(Items(pattern, 0), name)
  }

  function Codes(s: string): Text
    requires forall i :: 0 <= i < |s| ==> s[i] != 0 as char
  {
    seq(|s|, i requires 0 <= i < |s| => s[i] as int)
  }

  /** The names behind COMMON, and every other pattern as it stands. */
  lemma CommonSelects(pattern: Text, name: Text)
    ensures pattern == Codes("COMMON") ==>
              (Selects(pattern, name) <==> name in {Codes("COMMON"), Codes(".bss"), Codes(".common")})
    ensures pattern != Codes("COMMON") ==> (Selects(pattern, name) <==> Denotes(pattern, 0, name))
  {
    assert Codes("COMMON") == COMMON && Codes(".bss") == BSS && Codes(".common") == DOT_COMMON;
  }

  method LinkerConfigPatternMatch(pattern: Text, name: Text) returns (matched: bool)
    ensures matched <==> Selects(pattern, name)
  {
    if pattern == COMMON {
      return name == COMMON || name == BSS || name == DOT_COMMON;
    }
    assert name[0..] == name;
    matched := PatternMatch(pattern, 0, name, 0);
  }

  /** The first pattern that selects the name, or -1. */
  method LinkerConfigPatternIndex(patterns: seq<Text>, name: Text) returns (index: int)
    ensures -1 <= index < |patterns|
    ensures index >= 0 ==> Selects(patterns[index], name)
    ensures forall i :: 0 <= i < (if index < 0 then |patterns| else index) ==> !Selects(patterns[i], name)
  {
    var i := 0;
    while i < |patterns|
      invariant 0 <= i <= |patterns|
      invariant forall k :: 0 <= k < i ==> !Selects(patterns[k], name)
    {
      var matched := LinkerConfigPatternMatch(patterns[i], name);
      if matched {
        return i;
      }
      i := i + 1;
    }
    index := -1;
  }
}
