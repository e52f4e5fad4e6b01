/**
 Expressions of linker scripts: their trees and values over 64-bit words, their tokens with
 as few parentheses as the grammar allows, and the recursive-descent parser as functions on
 its state.  The main result is that parsing the tokens of a tree gives the tree's value and
 consumes exactly those tokens.
 */
module ScriptExpr {
  import opened Words
  import PowerOfTwo

  datatype Token =
    | Number(value: u64) | Ident(name: string) | Str(text: string)
    | LParen | RParen | Colon | Comma | Question | Tilde
    | Star | Slash | Plus | Minus | ShlTok | ShrTok | Amp | Pipe
    | Other

  datatype Op = OrOp | AndOp | ShlOp | ShrOp | AddOp | SubOp | MulOp | DivOp

  datatype Option<T> = None | Some(value: T)

  function OpOf(t: Token): Option<Op> {
    match t
    case Pipe => Some(OrOp)
    case Amp => Some(AndOp)
    case ShlTok => Some(ShlOp)
    case ShrTok => Some(ShrOp)
    case Plus => Some(AddOp)
    case Minus => Some(SubOp)
    case Star => Some(MulOp)
    case Slash => Some(DivOp)
    case _ => None
  }

  function TokenOf(op: Op): (t: Token)
    ensures OpOf(t) == Some(op)
  {
    match op
    case OrOp => Pipe
    case AndOp => Amp
    case ShlOp => ShlTok
    case ShrOp => ShrTok
    case AddOp => Plus
    case SubOp => Minus
    case MulOp => Star
    case DivOp => Slash
  }

  /** 1 binds loosest; 6 is the level of primaries, 0 that of whole expressions. */
  function OpLevel(op: Op): (level: nat)
    ensures 1 <= level <= 5
  {
    match op
    case OrOp => 1
    case AndOp => 2
    case ShlOp => 3
    case ShrOp => 3
    case AddOp => 4
    case SubOp => 4
    case MulOp => 5
    case DivOp => 5
  }

  // ---- values ----

  datatype Memory = Memory(name: string, origin: u64, length: u64)

  datatype Symbol = Symbol(name: string, hasAbsolute: bool, absolute: u64)

  /** What an expression may refer to: the machine's class, the regions and the symbols so far. */
  datatype Env = Env(elf64: bool, memories: seq<Memory>, symbols: seq<Symbol>)

  function FindMemory(memories: seq<Memory>, name: string): Option<Memory> {
    if memories == [] then None
    else if memories[0].name == name then Some(memories[0])
    else FindMemory(memories[1..], name)
  }

  /** The first region of that name. */
  lemma {:induction false} FindsFirstMemory(memories: seq<Memory>, name: string, k: nat)
    requires k < |memories| && FirstMemory(memories, name, k)
    ensures FindMemory(memories, name) == Some(memories[k])
  {
    if k > 0 {
      FindsFirstMemory(memories[1..], name, k - 1);
    }
  }

  lemma {:induction false} FindsNoMemory(memories: seq<Memory>, name: string)
    ensures FindMemory(memories, name).None? <==> forall k :: 0 <= k < |memories| ==> memories[k].name != name
  {
    if memories != [] {
      var rest := memories[1..];
      FindsNoMemory(rest, name);
      assert memories == [memories[0]] + rest;
    }
  }

  predicate FirstMemory(memories: seq<Memory>, name: string, k: nat)
    requires k < |memories|
  {
    memories[k].name == name && forall j :: 0 <= j < k ==> memories[j].name != name
  }

  function FindSymbol(symbols: seq<Symbol>, name: string): Option<Symbol> {
    if symbols == [] then None
    else if symbols[|symbols| - 1].name == name then Some(symbols[|symbols| - 1])
    else FindSymbol(symbols[..|symbols| - 1], name)
  }

  /** The latest definition wins. */
  lemma {:induction false} FindsLastSymbol(symbols: seq<Symbol>, name: string, k: nat)
    requires k < |symbols| && LastSymbol(symbols, name, k)
    ensures FindSymbol(symbols, name) == Some(symbols[k])
  {
    var n := |symbols| - 1;
    if k < n {
      FindsLastSymbol(symbols[..n], name, k);
    }
  }

  lemma {:induction false} FindsNoSymbol(symbols: seq<Symbol>, name: string)
    ensures FindSymbol(symbols, name).None? <==> forall k :: 0 <= k < |symbols| ==> symbols[k].name != name
  {
    if symbols != [] {
      var rest := symbols[..|symbols| - 1];
      FindsNoSymbol(rest, name);
      assert symbols == rest + [symbols[|symbols| - 1]];
    }
  }

  predicate LastSymbol(symbols: seq<Symbol>, name: string, k: nat)
    requires k < |symbols|
  {
    symbols[k].name == name && forall j :: k < j < |symbols| ==> symbols[j].name != name
  }

  const PAGE_SIZE: u64 := 0x1000

  function HeadersSize(env: Env): u64 { if env.elf64 then 64 + 4 * 56 else 52 + 4 * 32 }

  /** Division by zero keeps the left operand; shift counts are taken modulo 64. */
  function ApplyOp(op: Op, a: u64, b: u64): u64 {
    match op
    case OrOp => PowerOfTwo.OrFits(a, b); PowerOfTwo.Or(a, b)
    case AndOp => PowerOfTwo.And(a, b)
    case ShlOp => Shl(a, b % 64)
    case ShrOp => Shr(a, b % 64)
    case AddOp => (a + b) % TWO64
    case SubOp => (a - b) % TWO64
    case MulOp => (a * b) % TWO64
    case DivOp => if b == 0 then a else Shrink(a, b); a / b
  }

  function Complement(a: u64): u64 { TWO64 - 1 - a }

  function Negate(a: u64): u64 { (0 - a) % TWO64 }

  function AlignUp(value: u64, align: u64): u64 {
    if align <= 1 then value else (((value + align - 1) % TWO64) / align * align) % TWO64
  }

  lemma RoundDown(sum: u64, align: u64)
    requires align >= 1
    ensures var m := sum / align * align;
            sum - align < m <= sum && m % TWO64 == m && m % align == 0
  {
    DivMod(sum, align);
    var q := sum / align;
    assert q * align == align * q;
    DivUnique(q * align, align, q, 0);
    DivUnique(q * align, TWO64, 0, q * align);
  }

  lemma SumWraps(value: u64, align: u64)
    requires align > 1
    ensures value + align - 1 < TWO64 ==> (value + align - 1) % TWO64 == value + align - 1
    ensures value + align - 1 >= TWO64 ==> (value + align - 1) % TWO64 == value + align - 1 - TWO64
  {
    if value + align - 1 < TWO64 {
      DivUnique(value + align - 1, TWO64, 0, value + align - 1);
    } else {
      DivUnique(value + align - 1, TWO64, 1, value + align - 1 - TWO64);
    }
  }

  /** The least multiple not below the value, unless the sum wraps: then the result is below it. */
  lemma AlignUpMeaning(value: u64, align: u64)
    requires align >= 1
    ensures AlignUp(value, align) % align == 0
    ensures AlignUp(value, align) >= value <==> value + align - 1 < TWO64
    ensures value + align - 1 < TWO64 ==> AlignUp(value, align) < value + align
  {
    if align > 1 {
      var sum := (value + align - 1) % TWO64;
      SumWraps(value, align);
      RoundDown(sum, align);
      assert AlignUp(value, align) == sum / align * align;
    }
  }

  // ---- trees ----

  datatype Expr =
    | Num(value: u64)
    | Dot(spelling: string)
    | Headers
    | Var(name: string)
    | Not(arg: Expr)
    | Neg(arg: Expr)
    | Bin(op: Op, left: Expr, right: Expr)
    | Cond(test: Expr, yes: Expr, no: Expr)
    | Align(spelling: string, arg: Expr)
    | AlignTo(spelling: string, arg: Expr, multiple: Expr)
    | Constant(which: Option<string>)
    | Extreme(max: bool, left: Expr, right: Expr)
    | Region(spelling: string, name: string, quoted: bool)
    | Absolute(arg: Expr)
    | Defined(name: string)
    | Section(spelling: string, arg: Expr)
    | SectionAlone(spelling: string)

  predicate IsDot(s: string) { s == "." || s == "DOT" }
  predicate IsAlign(s: string) { s == "ALIGN" || s == "BLOCK" }
  predicate IsLength(s: string) { s == "LENGTH" || s == "len" }
  predicate IsRegion(s: string) { s == "ORIGIN" || s == "org" || IsLength(s) }
  predicate IsSection(s: string) { s == "ADDR" || s == "SIZEOF" || s == "ALIGNOF" || s == "LOADADDR" }

  predicate IsKeyword(s: string) {
    || IsDot(s) || s == "SIZEOF_HEADERS" || IsAlign(s) || s == "CONSTANT" || s == "MAX" || s == "MIN"
    || IsRegion(s) || s == "ABSOLUTE" || s == "DEFINED" || IsSection(s)
  }

  /** Every word is used as what it is, and every region that is named exists. */
  predicate WellNamed(env: Env, e: Expr) {
    match e
    case Num(_) => true
    case Dot(s) => IsDot(s)
    case Headers => true
    case Var(s) => !IsKeyword(s)
    case Not(a) => WellNamed(env, a)
    case Neg(a) => WellNamed(env, a)
    case Bin(_, l, r) => WellNamed(env, l) && WellNamed(env, r)
    case Cond(c, y, n) => WellNamed(env, c) && WellNamed(env, y) && WellNamed(env, n)
    case Align(s, a) => IsAlign(s) && WellNamed(env, a)
    case AlignTo(s, a, b) => IsAlign(s) && WellNamed(env, a) && WellNamed(env, b)
    case Constant(_) => true
    case Extreme(_, l, r) => WellNamed(env, l) && WellNamed(env, r)
    case Region(s, name, _) => IsRegion(s) && FindMemory(env.memories, name).Some?
    case Absolute(a) => WellNamed(env, a)
    case Defined(_) => true
    case Section(s, a) => IsSection(s) && WellNamed(env, a)
    case SectionAlone(s) => IsSection(s)
  }

  function SymbolValue(env: Env, name: string): u64 {
    match FindSymbol(env.symbols, name)
    case Some(s) => if s.hasAbsolute then s.absolute else 0
    case None => 0
  }

  function Value(env: Env, e: Expr): u64 {
    match e
    case Num(v) => v
    case Dot(_) => 0
    case Headers => HeadersSize(env)
    case Var(name) => SymbolValue(env, name)
    case Not(a) => Complement(Value(env, a))
    case Neg(a) => Negate(Value(env, a))
    case Bin(op, l, r) => ApplyOp(op, Value(env, l), Value(env, r))
    case Cond(c, y, n) => if Value(env, c) != 0 then Value(env, y) else Value(env, n)
    case Align(_, a) => 0
    case AlignTo(_, a, b) => AlignUp(Value(env, a), Value(env, b))
    case Constant(_) => PAGE_SIZE
    case Extreme(max, l, r) =>
      var a, b := Value(env, l), Value(env, r);
      if max then (if a > b then a else b) else if a < b then a else b
    case Region(s, name, _) =>
      (match FindMemory(env.memories, name)
       case Some(m) => if IsLength(s) then m.length else m.origin
       case None => 0)
    case Absolute(a) => Value(env, a)
    case Defined(name) => if FindSymbol(env.symbols, name).Some? then 1 else 0
    case Section(_, _) => 0
    case SectionAlone(_) => 0
  }

  predicate Unknown(env: Env, name: string) {
    match FindSymbol(env.symbols, name)
    case Some(s) => !s.hasAbsolute
    case None => true
  }

  /** Some part of the tree, evaluated or not, has no value before layout. */
  predicate Relocatable(env: Env, e: Expr) {
    match e
    case Num(_) => false
    case Dot(_) => true
    case Headers => false
    case Var(name) => Unknown(env, name)
    case Not(a) => Relocatable(env, a)
    case Neg(a) => Relocatable(env, a)
    case Bin(_, l, r) => Relocatable(env, l) || Relocatable(env, r)
    case Cond(c, y, n) => Relocatable(env, c) || Relocatable(env, y) || Relocatable(env, n)
    case Align(_, _) => true
    case AlignTo(_, a, b) => Relocatable(env, a) || Relocatable(env, b)
    case Constant(_) => false
    case Extreme(_, l, r) => Relocatable(env, l) || Relocatable(env, r)
    case Region(_, _, _) => false
    case Absolute(a) => Relocatable(env, a)
    case Defined(_) => false
    case Section(_, _) => true
    case SectionAlone(_) => true
  }

  // ---- tokens of a tree ----

  function LevelOf(e: Expr): (level: nat)
    ensures level <= 6
  {
    match e
    case Cond(_, _, _) => 0
    case Bin(op, _, _) => OpLevel(op)
    case _ => 6
  }

  /** The tokens of e, in parentheses only where its level needs them, and then those of rest. */
  function Print(e: Expr, level: nat, rest: seq<Token>): (toks: seq<Token>)
    requires level <= 6
    ensures |toks| > |rest|
    decreases e, 1
  {
    if LevelOf(e) < level then [LParen] + Body(e, [RParen] + rest) else Body(e, rest)
  }

  function Call(name: string, args: seq<Token>): seq<Token> { [Ident(name), LParen] + args }

  function Body(e: Expr, rest: seq<Token>): (toks: seq<Token>)
    ensures |toks| > |rest|
    decreases e, 0
  {
    match e
    case Num(v) => [Number(v)] + rest
    case Dot(s) => [Ident(s)] + rest
    case Headers => [Ident("SIZEOF_HEADERS")] + rest
    case Var(s) => [Ident(s)] + rest
    case Not(a) => [Tilde] + Print(a, 6, rest)
    case Neg(a) => [Minus] + Print(a, 6, rest)
    case Bin(op, l, r) => Print(l, OpLevel(op), [TokenOf(op)] + Print(r, OpLevel(op) + 1, rest))
    case Cond(c, y, n) => Print(c, 1, [Question] + Print(y, 0, [Colon] + Print(n, 0, rest)))
    case Align(s, a) => Call(s, Print(a, 0, [RParen] + rest))
    case AlignTo(s, a, b) => Call(s, Print(a, 0, [Comma] + Print(b, 0, [RParen] + rest)))
    case Constant(name) => Call("CONSTANT", if name.Some? then [Ident(name.value), RParen] + rest else [RParen] + rest)
    case Extreme(max, l, r) =>
      Call(if max then "MAX" else "MIN", Print(l, 0, [Comma] + Print(r, 0, [RParen] + rest)))
    case Region(s, name, quoted) => Call(s, [if quoted then Str(name) else Ident(name), RParen] + rest)
    case Absolute(a) => Call("ABSOLUTE", Print(a, 0, [RParen] + rest))
    case Defined(name) => Call("DEFINED", [Ident(name), RParen] + rest)
    case Section(s, a) => Call(s, Print(a, 0, [RParen] + rest))
    case SectionAlone(s) => [Ident(s)] + rest
  }

  // ---- the parser ----

  datatype State = State(toks: seq<Token>, relocatable: bool, errors: nat)

  /** NextToken; at the end of the input it stays there. */
  function Next(s: State): State { if s.toks == [] then s else s.(toks := s.toks[1..]) }

  predicate At(s: State, t: Token) { s.toks != [] && s.toks[0] == t }

  predicate AtIdent(s: State) { s.toks != [] && s.toks[0].Ident? }

  function Failed(s: State): State { s.(errors := s.errors + 1) }

  function Expect(s: State, t: Token): State { if At(s, t) then Next(s) else Failed(s) }

  predicate AtOp(s: State, level: nat) {
    s.toks != [] && OpOf(s.toks[0]).Some? && OpLevel(OpOf(s.toks[0]).value) == level
  }

  function Expression(env: Env, s: State): (r: (u64, State))
    ensures |r.1.toks| <= |s.toks|
    decreases |s.toks|, 20
  {
    var test := Level(env, 1, s);
    if !At(test.1, Question) then test
    else
      var yes := Expression(env, Next(test.1));
      var no := Expression(env, Expect(yes.1, Colon));
      (if test.0 != 0 then yes.0 else no.0, no.1)
  }

  /** ParseOr, ParseAnd, ParseShift, ParseAdd and ParseMul are levels 1 to 5. */
  function Level(env: Env, level: nat, s: State): (r: (u64, State))
    requires 1 <= level <= 5
    ensures |r.1.toks| <= |s.toks|
    decreases |s.toks|, 10 - level
  {
    var first := if level == 5 then Primary(env, s) else Level(env, level + 1, s);
    Loop(env, level, first.0, first.1)
  }

  /** Operators of one level, from left to right. */
  function Loop(env: Env, level: nat, value: u64, s: State): (r: (u64, State))
    requires 1 <= level <= 5
    ensures |r.1.toks| <= |s.toks|
    decreases |s.toks|, 1
  {
    if !AtOp(s, level) then (value, s)
    else
      var rhs := if level == 5 then Primary(env, Next(s)) else Level(env, level + 1, Next(s));
      Loop(env, level, ApplyOp(OpOf(s.toks[0]).value, value, rhs.0), rhs.1)
  }

  function Primary(env: Env, s: State): (r: (u64, State))
    ensures |r.1.toks| <= |s.toks|
    decreases |s.toks|, 3
  {
    if s.toks == [] then (0, Failed(s))
    else
      match s.toks[0]
      case Number(v) => (v, Next(s))
      case Tilde => var a := Primary(env, Next(s)); (Complement(a.0), a.1)
      case Minus => var a := Primary(env, Next(s)); (Negate(a.0), a.1)
      case LParen => var a := Expression(env, Next(s)); (a.0, Expect(a.1, RParen))
      case Ident(name) => Named(env, name, Next(s))
      case _ => (0, Failed(s))
  }

  /** What follows a word; s is after the word. */
  function Named(env: Env, name: string, s: State): (r: (u64, State))
    ensures |r.1.toks| <= |s.toks|
    decreases |s.toks|, 30
  {
    if IsDot(name) then (0, s.(relocatable := true))
    else if name == "SIZEOF_HEADERS" then (HeadersSize(env), s)
    else if IsAlign(name) then AlignCall(env, s)
    else if name == "CONSTANT" then ConstantCall(s)
    else if name == "MAX" || name == "MIN" then ExtremeCall(env, name == "MAX", s)
    else if IsRegion(name) then RegionCall(env, IsLength(name), s)
    else if name == "ABSOLUTE" then Parenthesised(env, s)
    else if name == "DEFINED" then DefinedCall(env, s)
    else if IsSection(name) then SectionCall(env, s)
    else (SymbolValue(env, name), if Unknown(env, name) then s.(relocatable := true) else s)
  }

  function Parenthesised(env: Env, s: State): (r: (u64, State))
    ensures |r.1.toks| <= |s.toks|
    decreases |s.toks|, 29
  {
    var a := Expression(env, Expect(s, LParen));
    (a.0, Expect(a.1, RParen))
  }

  function AlignCall(env: Env, s: State): (r: (u64, State))
    ensures |r.1.toks| <= |s.toks|
    decreases |s.toks|, 29
  {
    var a := Expression(env, Expect(s, LParen));
    if At(a.1, Comma) then
      var b := Expression(env, Next(a.1));
      (AlignUp(a.0, b.0), Expect(b.1, RParen))
    else (AlignUp(0, a.0), Expect(a.1.(relocatable := true), RParen))
  }

  function ConstantCall(s: State): (r: (u64, State))
    ensures |r.1.toks| <= |s.toks|
  {
    var t := Expect(s, LParen);
    (PAGE_SIZE, Expect(if AtIdent(t) then Next(t) else t, RParen))
  }

  function ExtremeCall(env: Env, max: bool, s: State): (r: (u64, State))
    ensures |r.1.toks| <= |s.toks|
    decreases |s.toks|, 29
  {
    var a := Expression(env, Expect(s, LParen));
    var b := Expression(env, Expect(a.1, Comma));
    (if max then (if a.0 > b.0 then a.0 else b.0) else if a.0 < b.0 then a.0 else b.0, Expect(b.1, RParen))
  }

  function RegionCall(env: Env, wantLength: bool, s: State): (r: (u64, State))
    ensures |r.1.toks| <= |s.toks|
  {
    var t := Expect(s, LParen);
    if t.toks != [] && (t.toks[0].Ident? || t.toks[0].Str?) then
      var name := if t.toks[0].Ident? then t.toks[0].name else t.toks[0].text;
      match FindMemory(env.memories, name)
      case Some(m) => (if wantLength then m.length else m.origin, Expect(Next(t), RParen))
      case None => (0, Expect(Next(Failed(t)), RParen))
    else (0, Expect(Failed(t), RParen))
  }

  function DefinedCall(env: Env, s: State): (r: (u64, State))
    ensures |r.1.toks| <= |s.toks|
  {
    var t := Expect(s, LParen);
    if AtIdent(t) then
      (if FindSymbol(env.symbols, t.toks[0].name).Some? then 1 else 0, Expect(Next(t), RParen))
    else (0, Expect(Failed(t), RParen))
  }

  function SectionCall(env: Env, s: State): (r: (u64, State))
    ensures |r.1.toks| <= |s.toks|
    decreases |s.toks|, 29
  {
    if At(s, LParen) then
      var a := Expression(env, Next(s));
      (0, Expect(a.1, RParen).(relocatable := true))
    else (0, s.(relocatable := true))
  }
}
