/**
 Parsing the tokens of a tree gives the tree's value, for every tree and whatever follows.
 */
module ScriptRoundTrip {
  import opened Words
  import opened ScriptExpr

  /** The token after an expression does not continue it at this level. */
  predicate Stops(rest: seq<Token>, level: nat) {
    rest == [] ||
    (&& rest[0] != LParen
     && (OpOf(rest[0]).Some? ==> OpLevel(OpOf(rest[0]).value) < level)
     && (level == 0 ==> rest[0] != Question))
  }

  function ParseAt(env: Env, level: nat, s: State): (u64, State)
    requires level <= 6
  {
    if level == 0 then Expression(env, s) else if level == 6 then Primary(env, s) else Level(env, level, s)
  }

  /** The state after e was read: the rest is left, and e may have made the whole relocatable. */
  function After(env: Env, e: Expr, rest: seq<Token>, before: bool, errors: nat): State {
    State(rest, before || Relocatable(env, e), errors)
  }

  /** One operator of the loop taken. */
  lemma LoopTakes(env: Env, op: Op, value: u64, toks: seq<Token>, before: bool, errors: nat)
    ensures var rhs := ParseAt(env, OpLevel(op) + 1, State(toks, before, errors));
            var s := State([TokenOf(op)] + toks, before, errors);
            Loop(env, OpLevel(op), value, s) == Loop(env, OpLevel(op), ApplyOp(op, value, rhs.0), rhs.1)
  {
    var s := State([TokenOf(op)] + toks, before, errors);
    assert Next(s) == State(toks, before, errors);
    hide ApplyOp, Primary, Level;
  }

  lemma LoopStops(env: Env, level: nat, value: u64, s: State)
    requires 1 <= level <= 5 && Stops(s.toks, level)
    ensures Loop(env, level, value, s) == (value, s)
  {
  }

  lemma LevelIsLoop(env: Env, level: nat, s: State)
    requires 1 <= level <= 5
    ensures var first := ParseAt(env, level + 1, s); Level(env, level, s) == Loop(env, level, first.0, first.1)
  {
    hide Primary, Loop;
  }

  /** Parentheses are the same at every level that needs them. */
  lemma PrintAbove(e: Expr, level: nat, rest: seq<Token>)
    requires level < 6 && LevelOf(e) != level
    ensures Print(e, level, rest) == Print(e, level + 1, rest)
  {
    hide Body;
  }

  /** Reading a tree at an operator level leaves the loop of that level with its value. */
  lemma {:induction false} ChainReads(env: Env, e: Expr, level: nat, rest: seq<Token>, before: bool, errors: nat)
    requires WellNamed(env, e) && 1 <= level <= 5 && Stops(rest, level + 1)
    ensures Level(env, level, State(Print(e, level, rest), before, errors))
         == Loop(env, level, Value(env, e), After(env, e, rest, before, errors))
    decreases e, if LevelOf(e) < level then 1 else 0, 6 - level, 0
  {
    if LevelOf(e) == level {
      OperatorReads(env, e, rest, before, errors);
    } else {
      hide Print, Value, Relocatable, Loop, Level, Primary, WellNamed;
      PrintAbove(e, level, rest);
      TreeReads(env, e, level + 1, rest, before, errors);
      LevelIsLoop(env, level, State(Print(e, level, rest), before, errors));
    }
  }

  lemma {:induction false} OperatorReads(env: Env, e: Expr, rest: seq<Token>, before: bool, errors: nat)
    requires WellNamed(env, e) && e.Bin? && Stops(rest, OpLevel(e.op) + 1)
    ensures Level(env, OpLevel(e.op), State(Print(e, OpLevel(e.op), rest), before, errors))
         == Loop(env, OpLevel(e.op), Value(env, e), After(env, e, rest, before, errors))
    decreases e, 0, 0, 0
  {
    var level, tail := OpLevel(e.op), Print(e.right, OpLevel(e.op) + 1, rest);
    assert Print(e, level, rest) == Print(e.left, level, [TokenOf(e.op)] + tail);
    assert Value(env, e) == ApplyOp(e.op, Value(env, e.left), Value(env, e.right));
    assert Relocatable(env, e) == (Relocatable(env, e.left) || Relocatable(env, e.right));
    hide Print, Value, Relocatable, Loop, Level, Primary, ApplyOp;
    ChainReads(env, e.left, level, [TokenOf(e.op)] + tail, before, errors);
    LoopTakes(env, e.op, Value(env, e.left), tail, before || Relocatable(env, e.left), errors);
    TreeReads(env, e.right, level + 1, rest, before || Relocatable(env, e.left), errors);
  }

  /** The main result. */
  lemma {:induction false} TreeReads(env: Env, e: Expr, level: nat, rest: seq<Token>, before: bool, errors: nat)
    requires WellNamed(env, e) && level <= 6 && Stops(rest, level)
    ensures ParseAt(env, level, State(Print(e, level, rest), before, errors))
         == (Value(env, e), After(env, e, rest, before, errors))
    decreases e, if LevelOf(e) < level then 1 else 0, 6 - level, 3
  {
    hide Print, Value, Relocatable, Loop, Level, Primary, Expression, WellNamed;
    if level == 0 {
      if e.Cond? {
        CondReads(env, e, rest, before, errors);
      } else {
        PrintAbove(e, 0, rest);
        TreeReads(env, e, 1, rest, before, errors);
        NoQuestion(env, State(Print(e, 0, rest), before, errors), rest);
      }
    } else if level <= 5 {
      ChainReads(env, e, level, rest, before, errors);
      LoopStops(env, level, Value(env, e), After(env, e, rest, before, errors));
    } else if LevelOf(e) < 6 {
      ParensRead(env, e, rest, before, errors);
    } else {
      PrimaryReads(env, e, rest, before, errors);
    }
  }

  lemma NoQuestion(env: Env, s: State, rest: seq<Token>)
    requires Level(env, 1, s).1.toks == rest && Stops(rest, 0)
    ensures Expression(env, s) == Level(env, 1, s)
  {
    hide Level;
  }

  lemma {:induction false} CondReads(env: Env, e: Expr, rest: seq<Token>, before: bool, errors: nat)
    requires WellNamed(env, e) && e.Cond? && Stops(rest, 0)
    ensures Expression(env, State(Print(e, 0, rest), before, errors)) == (Value(env, e), After(env, e, rest, before, errors))
    decreases e, 0, 0, 0
  {
    var r1 := before || Relocatable(env, e.test);
    var r2 := r1 || Relocatable(env, e.yes);
    var third := Print(e.no, 0, rest);
    var second := Print(e.yes, 0, [Colon] + third);
    assert Print(e, 0, rest) == Print(e.test, 1, [Question] + second);
    assert Value(env, e) == if Value(env, e.test) != 0 then Value(env, e.yes) else Value(env, e.no);
    assert Relocatable(env, e) == (Relocatable(env, e.test) || Relocatable(env, e.yes) || Relocatable(env, e.no));
    assert WellNamed(env, e.test) && WellNamed(env, e.yes) && WellNamed(env, e.no);
    hide Print, Value, Relocatable, Loop, Level, Primary, WellNamed;
    TreeReads(env, e.test, 1, [Question] + second, before, errors);
    TreeReads(env, e.yes, 0, [Colon] + third, r1, errors);
    TreeReads(env, e.no, 0, rest, r2, errors);
    assert Next(State([Question] + second, r1, errors)) == State(second, r1, errors);
    assert Expect(State([Colon] + third, r2, errors), Colon) == State(third, r2, errors);
  }

  lemma {:induction false} ParensRead(env: Env, e: Expr, rest: seq<Token>, before: bool, errors: nat)
    requires WellNamed(env, e) && LevelOf(e) < 6
    ensures Primary(env, State(Print(e, 6, rest), before, errors)) == (Value(env, e), After(env, e, rest, before, errors))
    decreases e, 1, 0, 0
  {
    var inner := Print(e, 0, [RParen] + rest);
    assert Print(e, 6, rest) == [LParen] + inner;
    hide Print, Value, Relocatable, Expression, WellNamed;
    TreeReads(env, e, 0, [RParen] + rest, before, errors);
    assert Next(State([LParen] + inner, before, errors)) == State(inner, before, errors);
    assert Expect(After(env, e, [RParen] + rest, before, errors), RParen) == After(env, e, rest, before, errors);
  }

  // ---- primaries ----

  lemma AtCall(env: Env, name: string, args: seq<Token>, before: bool, errors: nat)
    ensures Primary(env, State(Call(name, args), before, errors))
         == Named(env, name, State([LParen] + args, before, errors))
    ensures Expect(State([LParen] + args, before, errors), LParen) == State(args, before, errors)
    ensures Next(State([LParen] + args, before, errors)) == State(args, before, errors)
  {
    assert Call(name, args)[1..] == [LParen] + args;
    hide Named;
  }

  lemma AtWord(env: Env, name: string, rest: seq<Token>, before: bool, errors: nat)
    ensures Primary(env, State([Ident(name)] + rest, before, errors)) == Named(env, name, State(rest, before, errors))
  {
    assert ([Ident(name)] + rest)[1..] == rest;
    hide Named;
  }

  lemma Closes(rest: seq<Token>, t: Token, before: bool, errors: nat)
    ensures Expect(State([t] + rest, before, errors), t) == State(rest, before, errors)
    ensures Next(State([t] + rest, before, errors)) == State(rest, before, errors)
    ensures At(State([t] + rest, before, errors), t)
  {
  }

  lemma AfterIs(env: Env, e: Expr, rest: seq<Token>, before: bool, errors: nat)
    ensures After(env, e, rest, before, errors) == State(rest, before || Relocatable(env, e), errors)
  {
  }

  lemma {:induction false} PrimaryReads(env: Env, e: Expr, rest: seq<Token>, before: bool, errors: nat)
    requires WellNamed(env, e) && LevelOf(e) == 6 && Stops(rest, 6)
    ensures Primary(env, State(Print(e, 6, rest), before, errors)) == (Value(env, e), After(env, e, rest, before, errors))
    decreases e, 0, 0, 2
  {
    match e
    case Num(_) => LeafReads(env, e, rest, before, errors);
    case Dot(_) => LeafReads(env, e, rest, before, errors);
    case Headers => LeafReads(env, e, rest, before, errors);
    case Var(_) => LeafReads(env, e, rest, before, errors);
    case SectionAlone(_) => LeafReads(env, e, rest, before, errors);
    case Constant(_) => ConstantReads(env, e, rest, before, errors);
    case Region(_, _, _) => RegionReads(env, e, rest, before, errors);
    case Defined(_) => DefinedReads(env, e, rest, before, errors);
    case Not(a) =>
      UnaryReads(env, e, a, Tilde, rest, before, errors);
    case Neg(a) =>
      UnaryReads(env, e, a, Minus, rest, before, errors);
    case Align(_, a) => OneArgReads(env, e, a, rest, before, errors);
    case Absolute(a) => OneArgReads(env, e, a, rest, before, errors);
    case Section(_, a) => OneArgReads(env, e, a, rest, before, errors);
    case AlignTo(_, a, b) => TwoArgsRead(env, e, a, b, rest, before, errors);
    case Extreme(_, a, b) => TwoArgsRead(env, e, a, b, rest, before, errors);
  }

  lemma NamedIs(env: Env, name: string, s: State)
    ensures IsAlign(name) ==> Named(env, name, s) == AlignCall(env, s)
    ensures name == "CONSTANT" ==> Named(env, name, s) == ConstantCall(s)
    ensures name == "MAX" || name == "MIN" ==> Named(env, name, s) == ExtremeCall(env, name == "MAX", s)
    ensures IsRegion(name) ==> Named(env, name, s) == RegionCall(env, IsLength(name), s)
    ensures name == "ABSOLUTE" ==> Named(env, name, s) == Parenthesised(env, s)
    ensures name == "DEFINED" ==> Named(env, name, s) == DefinedCall(env, s)
    ensures IsSection(name) ==> Named(env, name, s) == SectionCall(env, s)
  {
    hide AlignCall, ConstantCall, ExtremeCall, RegionCall, Parenthesised, DefinedCall, SectionCall, SymbolValue, Unknown;
  }

  lemma LeafReads(env: Env, e: Expr, rest: seq<Token>, before: bool, errors: nat)
    requires WellNamed(env, e) && Stops(rest, 6) && (e.Num? || e.Dot? || e.Headers? || e.Var? || e.SectionAlone?)
    ensures Primary(env, State(Print(e, 6, rest), before, errors)) == (Value(env, e), After(env, e, rest, before, errors))
  {
    if e.Num? {
      assert ([Number(e.value)] + rest)[1..] == rest;
    } else {
      var word := if e.Headers? then "SIZEOF_HEADERS" else if e.Var? then e.name else e.spelling;
      AtWord(env, word, rest, before, errors);
      assert Print(e, 6, rest) == [Ident(word)] + rest;
      hide Primary, Print, SymbolValue, Unknown;
      if e.SectionAlone? {
        NamedIs(env, word, State(rest, before, errors));
        hide Named;
      }
    }
  }

  function RegionName(e: Expr): Token
    requires e.Region?
  {
    if e.quoted then Str(e.name) else Ident(e.name)
  }

  lemma RegionCallReads(env: Env, e: Expr, rest: seq<Token>, before: bool, errors: nat)
    requires e.Region? && FindMemory(env.memories, e.name).Some?
    ensures RegionCall(env, IsLength(e.spelling), State([LParen] + ([RegionName(e)] + ([RParen] + rest)), before, errors))
         == (Value(env, e), State(rest, before, errors))
  {
    hide FindMemory, IsLength;
    var close := [RParen] + rest;
    var args := [RegionName(e)] + close;
    Closes(args, LParen, before, errors);
    Closes(close, RegionName(e), before, errors);
    Closes(rest, RParen, before, errors);
  }

  lemma RegionReads(env: Env, e: Expr, rest: seq<Token>, before: bool, errors: nat)
    requires WellNamed(env, e) && e.Region?
    ensures Primary(env, State(Print(e, 6, rest), before, errors)) == (Value(env, e), After(env, e, rest, before, errors))
  {
    var args := [RegionName(e)] + ([RParen] + rest);
    assert Print(e, 6, rest) == Call(e.spelling, args);
    assert !Relocatable(env, e);
    hide Primary, Print, Named, Call, RegionCall, Relocatable, Value;
    RegionCallReads(env, e, rest, before, errors);
    AtCall(env, e.spelling, args, before, errors);
    NamedIs(env, e.spelling, State([LParen] + args, before, errors));
  }

  lemma DefinedReads(env: Env, e: Expr, rest: seq<Token>, before: bool, errors: nat)
    requires e.Defined?
    ensures Primary(env, State(Print(e, 6, rest), before, errors)) == (Value(env, e), After(env, e, rest, before, errors))
  {
    var close := [RParen] + rest;
    var args := [Ident(e.name)] + close;
    assert Print(e, 6, rest) == Call("DEFINED", args);
    Closes(rest, RParen, before, errors);
    AtCall(env, "DEFINED", args, before, errors);
    NamedIs(env, "DEFINED", State([LParen] + args, before, errors));
    Closes(close, args[0], before, errors);
    hide Primary, Print, Named, Call;
  }

  lemma ConstantReads(env: Env, e: Expr, rest: seq<Token>, before: bool, errors: nat)
    requires e.Constant?
    ensures Primary(env, State(Print(e, 6, rest), before, errors)) == (Value(env, e), After(env, e, rest, before, errors))
  {
    var close := [RParen] + rest;
    var args := if e.which.None? then close else [Ident(e.which.value)] + close;
    assert Print(e, 6, rest) == Call("CONSTANT", args);
    AtCall(env, "CONSTANT", args, before, errors);
    NamedIs(env, "CONSTANT", State([LParen] + args, before, errors));
    Closes(rest, RParen, before, errors);
    if e.which.Some? {
      Closes(close, args[0], before, errors);
    }
    hide Primary, Print, Named, Call;
  }

  lemma {:induction false} UnaryReads(env: Env, e: Expr, a: Expr, t: Token, rest: seq<Token>, before: bool, errors: nat)
    requires WellNamed(env, e) && Stops(rest, 6) && ((e == Not(a) && t == Tilde) || (e == Neg(a) && t == Minus))
    ensures Primary(env, State(Print(e, 6, rest), before, errors)) == (Value(env, e), After(env, e, rest, before, errors))
    decreases a, 2, 0, 0
  {
    var tail := Print(a, 6, rest);
    assert Print(e, 6, rest) == [t] + tail;
    Closes(tail, t, before, errors);
    TreeReads(env, a, 6, rest, before, errors);
    hide Print;
  }

  lemma {:induction false} OneArgReads(env: Env, e: Expr, a: Expr, rest: seq<Token>, before: bool, errors: nat)
    requires WellNamed(env, e)
    requires (e.Align? && e == Align(e.spelling, a)) || e == Absolute(a) || (e.Section? && e == Section(e.spelling, a))
    ensures Primary(env, State(Print(e, 6, rest), before, errors)) == (Value(env, e), After(env, e, rest, before, errors))
    decreases a, 2, 0, 0
  {
    var word := if e.Absolute? then "ABSOLUTE" else e.spelling;
    var args := Print(a, 0, [RParen] + rest);
    assert Print(e, 6, rest) == Call(word, args);
    AtCall(env, word, args, before, errors);
    NamedIs(env, word, State([LParen] + args, before, errors));
    hide Print, Expression, Primary, Named, Call, AlignUp;
    TreeReads(env, a, 0, [RParen] + rest, before, errors);
    Closes(rest, RParen, before || Relocatable(env, a), errors);
    Closes(rest, RParen, true, errors);
    ZeroAligned(Value(env, a));
    if e.Section? {
      assert Named(env, word, State([LParen] + args, before, errors)) == SectionCall(env, State([LParen] + args, before, errors));
    }
  }

  lemma ZeroAligned(align: u64)
    ensures AlignUp(0, align) == 0
  {
    if align > 1 {
      DivUnique(align - 1, TWO64, 0, align - 1);
      DivUnique(align - 1, align, 0, align - 1);
    }
  }

  lemma StopsAt(t: Token, rest: seq<Token>)
    requires t == Comma || t == RParen
    ensures Stops([t] + rest, 0)
  {
  }

  /** Two arguments read one after the other. */
  lemma {:induction false} ArgsRead(env: Env, e: Expr, a: Expr, b: Expr, rest: seq<Token>, before: bool, errors: nat)
    requires WellNamed(env, a) && WellNamed(env, b) && a < e && b < e
    ensures var second := Print(b, 0, [RParen] + rest);
            var r1 := before || Relocatable(env, a);
            && ParseAt(env, 0, State(Print(a, 0, [Comma] + second), before, errors))
               == (Value(env, a), State([Comma] + second, r1, errors))
            && ParseAt(env, 0, State(second, r1, errors))
               == (Value(env, b), State([RParen] + rest, r1 || Relocatable(env, b), errors))
    decreases e, 0, 0, 0
  {
    hide *;
    var second, r1 := Print(b, 0, [RParen] + rest), before || Relocatable(env, a);
    StopsAt(Comma, second);
    StopsAt(RParen, rest);
    TreeReads(env, a, 0, [Comma] + second, before, errors);
    TreeReads(env, b, 0, [RParen] + rest, r1, errors);
    AfterIs(env, a, [Comma] + second, before, errors);
    AfterIs(env, b, [RParen] + rest, r1, errors);
  }

  predicate TwoArgs(e: Expr, a: Expr, b: Expr) {
    match e
    case AlignTo(_, x, y) => a == x && b == y
    case Extreme(_, x, y) => a == x && b == y
    case _ => false
  }

  function WordOf(e: Expr): string {
    if e.AlignTo? then e.spelling else if e.Extreme? && e.max then "MAX" else "MIN"
  }

  lemma TwoArgsShape(env: Env, e: Expr, a: Expr, b: Expr, rest: seq<Token>)
    requires WellNamed(env, e) && TwoArgs(e, a, b)
    ensures Print(e, 6, rest) == Call(WordOf(e), Print(a, 0, [Comma] + Print(b, 0, [RParen] + rest)))
    ensures Relocatable(env, e) == (Relocatable(env, a) || Relocatable(env, b)) && a < e && b < e
    ensures WellNamed(env, a) && WellNamed(env, b)
  {
    var tail := [RParen] + rest;
    assert Body(e, rest) == Call(WordOf(e), Print(a, 0, [Comma] + Print(b, 0, tail)));
  }

  /** The call is read by the function for its word. */
  lemma TwoArgsCall(env: Env, e: Expr, a: Expr, b: Expr, s: State, inner: State, comma: State, second: State, last: State)
    requires WellNamed(env, e) && TwoArgs(e, a, b)
    requires Expect(s, LParen) == inner && At(comma, Comma) && Next(comma) == second
    requires ParseAt(env, 0, inner) == (Value(env, a), comma) && ParseAt(env, 0, second) == (Value(env, b), last)
    ensures Named(env, WordOf(e), s) == (Value(env, e), Expect(last, RParen))
  {
    NamedIs(env, WordOf(e), s);
    CallsTwo(env, s, inner, e.Extreme? && e.max, comma, second);
    hide Named, Expression, AlignCall, ExtremeCall, AlignUp, Expect, At, Next;
    assert e.Extreme? ==> (WordOf(e) == "MAX") == e.max;
  }

  lemma {:induction false} TwoArgsRead(env: Env, e: Expr, a: Expr, b: Expr, rest: seq<Token>, before: bool, errors: nat)
    requires WellNamed(env, e) && TwoArgs(e, a, b)
    ensures Primary(env, State(Print(e, 6, rest), before, errors)) == (Value(env, e), After(env, e, rest, before, errors))
    decreases e, 0, 0, 1
  {
    hide *;
    TwoArgsShape(env, e, a, b, rest);
    ArgsRead(env, e, a, b, rest, before, errors);
    var second := Print(b, 0, [RParen] + rest);
    var args := Print(a, 0, [Comma] + second);
    AtCall(env, WordOf(e), args, before, errors);
    TwoArgsDone(env, e, a, b, args, second, rest, before, errors);
    AfterIs(env, e, rest, before, errors);
  }

  lemma TwoArgsDone(env: Env, e: Expr, a: Expr, b: Expr, args: seq<Token>, second: seq<Token>, rest: seq<Token>,
                    before: bool, errors: nat)
    requires WellNamed(env, e) && TwoArgs(e, a, b)
    requires ParseAt(env, 0, State(args, before, errors))
          == (Value(env, a), State([Comma] + second, before || Relocatable(env, a), errors))
    requires ParseAt(env, 0, State(second, before || Relocatable(env, a), errors))
          == (Value(env, b), State([RParen] + rest, before || Relocatable(env, a) || Relocatable(env, b), errors))
    ensures Named(env, WordOf(e), State([LParen] + args, before, errors))
         == (Value(env, e), State(rest, before || Relocatable(env, a) || Relocatable(env, b), errors))
  {
    hide *;
    var r1 := before || Relocatable(env, a);
    var r2 := r1 || Relocatable(env, b);
    Closes(args, LParen, before, errors);
    Closes(second, Comma, r1, errors);
    Closes(rest, RParen, r2, errors);
    TwoArgsCall(env, e, a, b, State([LParen] + args, before, errors), State(args, before, errors),
                State([Comma] + second, r1, errors), State(second, r1, errors), State([RParen] + rest, r2, errors));
  }

  /** The two forms of a call with two arguments, given what its parts are. */
  lemma CallsTwo(env: Env, s: State, inner: State, max: bool, comma: State, second: State)
    requires Expect(s, LParen) == inner && Expression(env, inner).1 == comma && At(comma, Comma) && Next(comma) == second
    ensures var a := Expression(env, inner).0;
            var b := Expression(env, second);
            && AlignCall(env, s) == (AlignUp(a, b.0), Expect(b.1, RParen))
            && ExtremeCall(env, max, s)
               == (if max then (if a > b.0 then a else b.0) else if a < b.0 then a else b.0, Expect(b.1, RParen))
  {
    hide Expression, AlignUp;
  }

  /** The tokens of a tree are those of the tree alone, followed by what comes after. */
  lemma {:induction false} PrintAppends(e: Expr, level: nat, rest: seq<Token>)
    requires level <= 6
    ensures Print(e, level, rest) == Print(e, level, []) + rest
    decreases e, 2
  {
    if LevelOf(e) < level {
      BodyAppends(e, [RParen] + rest);
      BodyAppends(e, [RParen]);
      assert [RParen] + [] == [RParen];
    } else {
      BodyAppends(e, rest);
    }
  }

  lemma {:induction false} BodyAppends(e: Expr, rest: seq<Token>)
    ensures Body(e, rest) == Body(e, []) + rest
    decreases e, 1
  {
    match e
    case Not(a) => PrintAppends(a, 6, rest); hide Print;
    case Neg(a) => PrintAppends(a, 6, rest); hide Print;
    case Bin(op, l, r) => PairAppends(e, l, OpLevel(op), TokenOf(op), r, OpLevel(op) + 1, rest); hide Print;
    case Cond(c, y, n) => CondAppends(e, c, y, n, rest); hide Print;
    case Align(_, a) => ClosedAppends(a, rest); hide Print;
    case Absolute(a) => ClosedAppends(a, rest); hide Print;
    case Section(_, a) => ClosedAppends(a, rest); hide Print;
    case AlignTo(_, a, b) => ClosedPairAppends(e, a, b, rest); hide Print;
    case Extreme(_, a, b) => ClosedPairAppends(e, a, b, rest); hide Print;
    case _ => LeafAppends(e, rest);
  }

  lemma LeafAppends(e: Expr, rest: seq<Token>)
    requires e.Num? || e.Dot? || e.Headers? || e.Var? || e.Constant? || e.Region? || e.Defined? || e.SectionAlone?
    ensures Body(e, rest) == Body(e, []) + rest
  {
  }

  lemma {:induction false} CondAppends(e: Expr, c: Expr, y: Expr, n: Expr, rest: seq<Token>)
    requires c < e && y < e && n < e
    ensures var tail := (r: seq<Token>) => [Question] + Print(y, 0, [Colon] + Print(n, 0, r));
            Print(c, 1, tail(rest)) == Print(c, 1, tail([])) + rest
    decreases e, 0, 1
  {
    hide Print;
    PairAppends(e, y, 0, Colon, n, 0, rest);
    PrintAppends(c, 1, [Question] + Print(y, 0, [Colon] + Print(n, 0, rest)));
    PrintAppends(c, 1, [Question] + Print(y, 0, [Colon] + Print(n, 0, [])));
  }

  lemma {:induction false} ClosedAppends(a: Expr, rest: seq<Token>)
    ensures Print(a, 0, [RParen] + rest) == Print(a, 0, [RParen] + []) + rest
    decreases a, 3
  {
    hide Print;
    PrintAppends(a, 0, [RParen] + rest);
    PrintAppends(a, 0, [RParen] + []);
  }

  lemma {:induction false} ClosedPairAppends(e: Expr, a: Expr, b: Expr, rest: seq<Token>)
    requires a < e && b < e
    ensures Print(a, 0, [Comma] + Print(b, 0, [RParen] + rest)) == Print(a, 0, [Comma] + Print(b, 0, [RParen] + [])) + rest
    decreases e, 0, 1
  {
    hide Print;
    PairAppends(e, a, 0, Comma, b, 0, [RParen] + rest);
    PairAppends(e, a, 0, Comma, b, 0, [RParen] + []);
  }

  lemma {:induction false} PairAppends(e: Expr, a: Expr, level: nat, t: Token, b: Expr, level2: nat, rest: seq<Token>)
    requires level <= 6 && level2 <= 6 && a < e && b < e
    ensures Print(a, level, [t] + Print(b, level2, rest)) == Print(a, level, [t] + Print(b, level2, [])) + rest
    decreases e, 0, 0
  {
    hide Print;
    PrintAppends(b, level2, rest);
    PrintAppends(a, level, [t] + Print(b, level2, rest));
    PrintAppends(a, level, [t] + Print(b, level2, []));
  }

  /** Parsing the tokens of a tree alone gives its value, uses them all, and reports nothing. */
  lemma ParsePrinted(env: Env, e: Expr)
    requires WellNamed(env, e)
    ensures Expression(env, State(Print(e, 0, []), false, 0)) == (Value(env, e), State([], Relocatable(env, e), 0))
  {
    TreeReads(env, e, 0, [], false, 0);
  }
}
