/**
 What the words and operators of script expressions mean, told without the functions that the
 parser and the values of trees share.
 */
module ScriptMeaning {
  import opened Words
  import opened ScriptExpr
  import opened ScriptRoundTrip
  import PowerOfTwo

  // ---- operators ----

  /** x and y are the same word. */
  predicate SameWord(x: int, y: int) { (x - y) % TWO64 == 0 }

  lemma Reduced(x: int)
    ensures SameWord(x % TWO64, x)
  {
    var q, r := x / TWO64, x % TWO64;
    assert r - x == TWO64 * (-q) + 0;
    DivUnique(r - x, TWO64, -q, 0);
  }

  /** Sums, differences and products are those of the integers, as words. */
  lemma SumsAndProducts(a: u64, b: u64)
    ensures SameWord(ApplyOp(AddOp, a, b), a + b)
    ensures SameWord(ApplyOp(SubOp, a, b), a - b)
    ensures SameWord(ApplyOp(MulOp, a, b), a * b)
    ensures SameWord(Negate(a), 0 - a) && Complement(a) + a == TWO64 - 1
  {
    Reduced(a + b);
    Reduced(a - b);
    Reduced(a * b);
    Reduced(0 - a);
  }

  /** A quotient is rounded down, and division by zero keeps the left operand. */
  lemma Quotients(a: u64, b: u64)
    ensures b > 0 ==> ApplyOp(DivOp, a, b) * b <= a < (ApplyOp(DivOp, a, b) + 1) * b
    ensures b == 0 ==> ApplyOp(DivOp, a, b) == a
  {
    if b > 0 {
      DivMod(a, b);
      assert a / b * b == b * (a / b) && (a / b + 1) * b == b * (a / b) + b;
    }
  }

  /** Shifts multiply and divide by the power of two of the count modulo 64. */
  lemma Shifts(a: u64, b: u64)
    ensures SameWord(ApplyOp(ShlOp, a, b), a * Pow2(b % 64))
    ensures ApplyOp(ShrOp, a, b) * Pow2(b % 64) <= a < (ApplyOp(ShrOp, a, b) + 1) * Pow2(b % 64)
  {
    var p := Pow2(b % 64);
    Reduced(a * p);
    DivMod(a, p);
    assert a / p * p == p * (a / p) && (a / p + 1) * p == p * (a / p) + p;
    hide Pow2;
  }

  /** And and or are bit by bit. */
  lemma Bitwise(a: u64, b: u64, k: nat)
    ensures PowerOfTwo.BitAt(ApplyOp(AndOp, a, b), k) <==> PowerOfTwo.BitAt(a, k) && PowerOfTwo.BitAt(b, k)
    ensures PowerOfTwo.BitAt(ApplyOp(OrOp, a, b), k) <==> PowerOfTwo.BitAt(a, k) || PowerOfTwo.BitAt(b, k)
  {
    PowerOfTwo.BitsOf(a, b, k);
  }

  // ---- words ----

  function Parsed(env: Env, toks: seq<Token>): (u64, State) { Expression(env, State(toks, false, 0)) }

  /** All tokens were used and nothing was reported. */
  function Clean(value: u64, relocatable: bool): (u64, State) { (value, State([], relocatable, 0)) }

  lemma NumPrints(v: u64, level: nat, rest: seq<Token>)
    requires level <= 6
    ensures Print(Num(v), level, rest) == [Number(v)] + rest
  {
  }

  predicate IsSymbol(env: Env, n: string) { exists k :: 0 <= k < |env.symbols| && env.symbols[k].name == n }

  /** A word that is no keyword has the value of the latest symbol of that name. */
  lemma SymbolReads(env: Env, n: string, k: nat)
    requires !IsKeyword(n) && k < |env.symbols| && env.symbols[k].name == n
    requires forall j :: k < j < |env.symbols| ==> env.symbols[j].name != n
    ensures Parsed(env, [Ident(n)]) ==
            (if env.symbols[k].hasAbsolute then Clean(env.symbols[k].absolute, false) else Clean(0, true))
  {
    ParsePrinted(env, Var(n));
    FindsLastSymbol(env.symbols, n, k);
    hide Expression, FindSymbol;
    assert Print(Var(n), 0, []) == [Ident(n)];
  }

  /** So what a script assigned last to a name is what the name stands for. */
  lemma LatestAssignmentReads(env: Env, n: string, v: u64)
    requires !IsKeyword(n) && env.symbols != [] && env.symbols[|env.symbols| - 1] == Symbol(n, true, v)
    ensures Parsed(env, [Ident(n)]) == Clean(v, false)
  {
    SymbolReads(env, n, |env.symbols| - 1);
  }

  /** A word that is neither stands for 0 until layout, and DEFINED tells which words are symbols. */
  lemma UnknownReads(env: Env, n: string)
    ensures !IsKeyword(n) && !IsSymbol(env, n) ==> Parsed(env, [Ident(n)]) == Clean(0, true)
    ensures Parsed(env, [Ident("DEFINED"), LParen, Ident(n), RParen]) == Clean(if IsSymbol(env, n) then 1 else 0, false)
  {
    ParsePrinted(env, Defined(n));
    FindsNoSymbol(env.symbols, n);
    hide Expression, FindSymbol;
    assert Print(Defined(n), 0, []) == [Ident("DEFINED"), LParen, Ident(n), RParen];
    if !IsKeyword(n) && !IsSymbol(env, n) {
      ParsePrinted(env, Var(n));
      assert Print(Var(n), 0, []) == [Ident(n)];
    }
  }

  predicate FirstRegion(env: Env, n: string, k: nat) {
    && k < |env.memories| && env.memories[k].name == n
    && forall j :: 0 <= j < k ==> env.memories[j].name != n
  }

  /** ORIGIN and org give the start of the first region of a name, LENGTH and len its length. */
  lemma RegionsRead(env: Env, n: string, k: nat)
    requires FirstRegion(env, n, k)
    ensures Parsed(env, [Ident("ORIGIN"), LParen, Ident(n), RParen]) == Clean(env.memories[k].origin, false)
    ensures Parsed(env, [Ident("org"), LParen, Str(n), RParen]) == Clean(env.memories[k].origin, false)
    ensures Parsed(env, [Ident("LENGTH"), LParen, Ident(n), RParen]) == Clean(env.memories[k].length, false)
    ensures Parsed(env, [Ident("len"), LParen, Str(n), RParen]) == Clean(env.memories[k].length, false)
  {
    RegionWord(env, "ORIGIN", n, false, k);
    RegionWord(env, "org", n, true, k);
    RegionWord(env, "LENGTH", n, false, k);
    RegionWord(env, "len", n, true, k);
  }

  /** A region that does not exist is reported, and gives 0. */
  lemma NoRegionReads(env: Env, n: string)
    requires forall k :: 0 <= k < |env.memories| ==> env.memories[k].name != n
    ensures Parsed(env, [Ident("ORIGIN"), LParen, Ident(n), RParen]) == (0, State([], false, 1))
  {
    FindsNoMemory(env.memories, n);
    hide FindMemory;
    var toks := [Ident("ORIGIN"), LParen, Ident(n), RParen];
    var s := State(toks, false, 0);
    assert toks[1..] == [LParen, Ident(n), RParen] && toks[1..][1..] == [Ident(n), RParen];
    assert toks[1..][1..][1..] == [RParen] && toks[1..][1..][1..][1..] == [];
    assert Primary(env, s) == RegionCall(env, false, Next(s));
    assert RegionCall(env, false, Next(s)) == (0, State([], false, 1));
    NoLoops(env, s, (0, State([], false, 1)));
  }

  /** After the last token no operator follows. */
  lemma NoLoops(env: Env, s: State, r: (u64, State))
    requires Primary(env, s) == r && r.1.toks == []
    ensures Expression(env, s) == r
  {
    hide Primary;
    assert Level(env, 5, s) == r;
    assert Level(env, 4, s) == r;
    assert Level(env, 3, s) == r;
    assert Level(env, 2, s) == r;
    assert Level(env, 1, s) == r;
  }

  lemma RegionWord(env: Env, s: string, n: string, quoted: bool, k: nat)
    requires IsRegion(s) && FirstRegion(env, n, k)
    ensures Parsed(env, [Ident(s), LParen, if quoted then Str(n) else Ident(n), RParen])
         == Clean(if s == "LENGTH" || s == "len" then env.memories[k].length else env.memories[k].origin, false)
  {
    FindsFirstMemory(env.memories, n, k);
    hide FindMemory;
    ParsePrinted(env, Region(s, n, quoted));
    hide Expression;
    assert Print(Region(s, n, quoted), 0, []) == [Ident(s), LParen, if quoted then Str(n) else Ident(n), RParen];
  }

  /** The words for the location counter and for sections have no value before layout. */
  lemma PlacesRead(env: Env, s: string)
    requires s in {".", "DOT", "ADDR", "SIZEOF", "ALIGNOF", "LOADADDR"}
    ensures Parsed(env, [Ident(s)]) == Clean(0, true)
  {
    var e := if s in {".", "DOT"} then Dot(s) else SectionAlone(s);
    ParsePrinted(env, e);
    hide Expression;
    assert Print(e, 0, []) == [Ident(s)];
  }

  /** ALIGN and BLOCK of two arguments round the first up to a multiple of the second. */
  lemma AlignReads(env: Env, s: string, a: u64, b: u64)
    requires s in {"ALIGN", "BLOCK"}
    ensures Parsed(env, [Ident(s), LParen, Number(a), Comma, Number(b), RParen]) == Clean(AlignUp(a, b), false)
    ensures Parsed(env, [Ident(s), LParen, Number(a), RParen]) == Clean(0, true)
  {
    ParsePrinted(env, AlignTo(s, Num(a), Num(b)));
    ParsePrinted(env, Align(s, Num(a)));
    hide Expression;
    NumPrints(b, 0, [RParen] + []);
    NumPrints(a, 0, [Comma] + Print(Num(b), 0, [RParen] + []));
    NumPrints(a, 0, [RParen] + []);
    assert Print(AlignTo(s, Num(a), Num(b)), 0, []) == [Ident(s), LParen, Number(a), Comma, Number(b), RParen];
    assert Print(Align(s, Num(a)), 0, []) == [Ident(s), LParen, Number(a), RParen];
  }

  /** MAX and MIN give one of their arguments, on the right side of both. */
  lemma ExtremesRead(env: Env, a: u64, b: u64)
    ensures var m := Parsed(env, [Ident("MAX"), LParen, Number(a), Comma, Number(b), RParen]);
            m == Clean(m.0, false) && (m.0 == a || m.0 == b) && m.0 >= a && m.0 >= b
    ensures var m := Parsed(env, [Ident("MIN"), LParen, Number(a), Comma, Number(b), RParen]);
            m == Clean(m.0, false) && (m.0 == a || m.0 == b) && m.0 <= a && m.0 <= b
  {
    ParsePrinted(env, Extreme(true, Num(a), Num(b)));
    ParsePrinted(env, Extreme(false, Num(a), Num(b)));
    hide Expression;
    NumPrints(b, 0, [RParen] + []);
    NumPrints(a, 0, [Comma] + Print(Num(b), 0, [RParen] + []));
    assert Print(Extreme(true, Num(a), Num(b)), 0, []) == [Ident("MAX"), LParen, Number(a), Comma, Number(b), RParen];
    assert Print(Extreme(false, Num(a), Num(b)), 0, []) == [Ident("MIN"), LParen, Number(a), Comma, Number(b), RParen];
  }

  /** The constants of the target, and ABSOLUTE, which changes nothing. */
  lemma ConstantsRead(env: Env, n: string, v: u64)
    ensures Parsed(env, [Ident("CONSTANT"), LParen, Ident(n), RParen]) == Clean(4096, false)
    ensures Parsed(env, [Ident("SIZEOF_HEADERS")]) == Clean(if env.elf64 then 288 else 180, false)
    ensures Parsed(env, [Ident("ABSOLUTE"), LParen, Number(v), RParen]) == Clean(v, false)
  {
    ParsePrinted(env, Constant(Some(n)));
    ParsePrinted(env, Headers);
    ParsePrinted(env, Absolute(Num(v)));
    hide Expression;
    assert Print(Constant(Some(n)), 0, []) == [Ident("CONSTANT"), LParen, Ident(n), RParen];
    assert Print(Headers, 0, []) == [Ident("SIZEOF_HEADERS")];
    NumPrints(v, 0, [RParen] + []);
    assert Print(Absolute(Num(v)), 0, []) == [Ident("ABSOLUTE"), LParen, Number(v), RParen];
  }

  // ---- operators between numbers ----

  /** The token of every operator. */
  lemma OperatorsRead(env: Env, a: u64, b: u64)
    ensures Parsed(env, [Number(a), Pipe, Number(b)]) == Clean(ApplyOp(OrOp, a, b), false)
    ensures Parsed(env, [Number(a), Amp, Number(b)]) == Clean(ApplyOp(AndOp, a, b), false)
    ensures Parsed(env, [Number(a), ShlTok, Number(b)]) == Clean(ApplyOp(ShlOp, a, b), false)
    ensures Parsed(env, [Number(a), ShrTok, Number(b)]) == Clean(ApplyOp(ShrOp, a, b), false)
    ensures Parsed(env, [Number(a), Plus, Number(b)]) == Clean(ApplyOp(AddOp, a, b), false)
    ensures Parsed(env, [Number(a), Minus, Number(b)]) == Clean(ApplyOp(SubOp, a, b), false)
    ensures Parsed(env, [Number(a), Star, Number(b)]) == Clean(ApplyOp(MulOp, a, b), false)
    ensures Parsed(env, [Number(a), Slash, Number(b)]) == Clean(ApplyOp(DivOp, a, b), false)
  {
    forall op: Op
      ensures Parsed(env, [Number(a), TokenOf(op), Number(b)]) == Clean(ApplyOp(op, a, b), false)
    {
      OneOperator(env, op, a, b);
    }
    hide Parsed, ApplyOp;
    assert TokenOf(OrOp) == Pipe && TokenOf(AndOp) == Amp && TokenOf(ShlOp) == ShlTok && TokenOf(ShrOp) == ShrTok;
    assert TokenOf(AddOp) == Plus && TokenOf(SubOp) == Minus && TokenOf(MulOp) == Star && TokenOf(DivOp) == Slash;
  }

  lemma OneOperator(env: Env, op: Op, a: u64, b: u64)
    ensures Parsed(env, [Number(a), TokenOf(op), Number(b)]) == Clean(ApplyOp(op, a, b), false)
  {
    var x, y := Num(a), Num(b);
    ParsePrinted(env, Bin(op, x, y));
    hide Expression, ApplyOp, TokenOf, OpLevel;
    var t := [TokenOf(op)] + Print(y, OpLevel(op) + 1, []);
    NumPrints(b, OpLevel(op) + 1, []);
    NumPrints(a, OpLevel(op), t);
    assert Print(Bin(op, x, y), 0, []) == Print(x, OpLevel(op), t);
    assert Print(x, OpLevel(op), t) == [Number(a), TokenOf(op), Number(b)];
  }

  /** Products bind tighter than sums, these than shifts, these than and, and and tighter than or. */
  predicate Tighter(op: Op, than: Op) {
    || (op in {MulOp, DivOp} && than !in {MulOp, DivOp})
    || (op in {AddOp, SubOp} && than in {ShlOp, ShrOp, AndOp, OrOp})
    || (op in {ShlOp, ShrOp} && than in {AndOp, OrOp})
    || (op == AndOp && than == OrOp)
  }

  lemma TighterIsHigher(op: Op, than: Op)
    ensures Tighter(op, than) <==> OpLevel(op) > OpLevel(than)
  {
  }

  /** Of two operators the second is applied first exactly if it binds tighter. */
  lemma TwoOperators(env: Env, op1: Op, op2: Op, a: u64, b: u64, c: u64)
    ensures Parsed(env, [Number(a), TokenOf(op1), Number(b), TokenOf(op2), Number(c)])
         == Clean(if Tighter(op2, op1) then ApplyOp(op1, a, ApplyOp(op2, b, c)) else ApplyOp(op2, ApplyOp(op1, a, b), c), false)
  {
    TighterIsHigher(op2, op1);
    hide Parsed, ApplyOp, Tighter, OpLevel;
    if Tighter(op2, op1) {
      RightFirst(env, op1, op2, a, b, c);
    } else {
      LeftFirst(env, op1, op2, a, b, c);
    }
  }

  lemma LeftFirst(env: Env, op1: Op, op2: Op, a: u64, b: u64, c: u64)
    requires OpLevel(op2) <= OpLevel(op1)
    ensures Parsed(env, [Number(a), TokenOf(op1), Number(b), TokenOf(op2), Number(c)])
         == Clean(ApplyOp(op2, ApplyOp(op1, a, b), c), false)
  {
    var x, y, z := Num(a), Num(b), Num(c);
    var left := Bin(op1, x, y);
    ParsePrinted(env, Bin(op2, left, z));
    hide Expression, ApplyOp, TokenOf, OpLevel;
    assert Value(env, left) == ApplyOp(op1, a, b) && !Relocatable(env, left);
    var t1 := [TokenOf(op2)] + Print(z, OpLevel(op2) + 1, []);
    var t2 := [TokenOf(op1)] + Print(y, OpLevel(op1) + 1, t1);
    NumPrints(c, OpLevel(op2) + 1, []);
    NumPrints(b, OpLevel(op1) + 1, t1);
    NumPrints(a, OpLevel(op1), t2);
    assert Print(left, OpLevel(op2), t1) == Print(x, OpLevel(op1), t2);
    assert Print(Bin(op2, left, z), 0, []) == Print(left, OpLevel(op2), t1);
    assert Print(x, OpLevel(op1), t2) == [Number(a), TokenOf(op1), Number(b), TokenOf(op2), Number(c)];
  }

  lemma RightFirst(env: Env, op1: Op, op2: Op, a: u64, b: u64, c: u64)
    requires OpLevel(op2) > OpLevel(op1)
    ensures Parsed(env, [Number(a), TokenOf(op1), Number(b), TokenOf(op2), Number(c)])
         == Clean(ApplyOp(op1, a, ApplyOp(op2, b, c)), false)
  {
    var x, y, z := Num(a), Num(b), Num(c);
    var right := Bin(op2, y, z);
    ParsePrinted(env, Bin(op1, x, right));
    hide Expression, ApplyOp, TokenOf, OpLevel;
    assert Value(env, right) == ApplyOp(op2, b, c) && !Relocatable(env, right);
    var t1 := [TokenOf(op2)] + Print(z, OpLevel(op2) + 1, []);
    var t2 := [TokenOf(op1)] + Print(right, OpLevel(op1) + 1, []);
    NumPrints(c, OpLevel(op2) + 1, []);
    NumPrints(b, OpLevel(op2), t1);
    NumPrints(a, OpLevel(op1), t2);
    assert Print(right, OpLevel(op1) + 1, []) == Print(y, OpLevel(op2), t1);
    assert Print(Bin(op1, x, right), 0, []) == Print(x, OpLevel(op1), t2);
    assert Print(x, OpLevel(op1), t2) == [Number(a), TokenOf(op1), Number(b), TokenOf(op2), Number(c)];
  }

  /** A sign and a complement belong to the primary behind them. */
  lemma SignsRead(env: Env, a: u64, b: u64)
    ensures Parsed(env, [Minus, Number(a)]) == Clean(Negate(a), false)
    ensures Parsed(env, [Tilde, Number(a)]) == Clean(Complement(a), false)
    ensures Parsed(env, [Minus, Number(a), Plus, Number(b)]) == Clean(ApplyOp(AddOp, Negate(a), b), false)
  {
    var x, y := Num(a), Num(b);
    ParsePrinted(env, Neg(x));
    ParsePrinted(env, Not(x));
    ParsePrinted(env, Bin(AddOp, Neg(x), y));
    hide Expression, ApplyOp, Negate, Complement;
    assert Value(env, Neg(x)) == Negate(a) && !Relocatable(env, Neg(x));
    var t := [Plus] + Print(y, 5, []);
    NumPrints(a, 6, []);
    NumPrints(b, 5, []);
    NumPrints(a, 6, t);
    assert Print(Neg(x), 0, []) == [Minus, Number(a)];
    assert Print(Not(x), 0, []) == [Tilde, Number(a)];
    assert Print(Bin(AddOp, Neg(x), y), 0, []) == Print(Neg(x), 4, t);
    assert Print(Neg(x), 4, t) == [Minus, Number(a), Plus, Number(b)];
  }

  /** A condition chooses. */
  lemma ConditionReads(env: Env, a: u64, b: u64, c: u64)
    ensures Parsed(env, [Number(a), Question, Number(b), Colon, Number(c)]) == Clean(if a != 0 then b else c, false)
  {
    var x, y, z := Num(a), Num(b), Num(c);
    ParsePrinted(env, Cond(x, y, z));
    hide Expression;
    var t1 := [Colon] + Print(z, 0, []);
    var t2 := [Question] + Print(y, 0, t1);
    NumPrints(c, 0, []);
    NumPrints(b, 0, t1);
    NumPrints(a, 1, t2);
    assert Print(Cond(x, y, z), 0, []) == Print(x, 1, t2);
    assert Print(x, 1, t2) == [Number(a), Question, Number(b), Colon, Number(c)];
  }
}
