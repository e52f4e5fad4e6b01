/**
 The expression parser as it runs: it advances over the tokens in place, and each loop
 accumulates the value of its operator level.
 */
module ScriptParser {
  import opened Words
  import opened ScriptExpr

  class Parser {
    const env: Env
    var toks: seq<Token>
    var relocatable: bool
    var errors: nat

    constructor (env: Env, toks: seq<Token>)
      ensures this.env == env && Now() == State(toks, false, 0)
    {
      this.env, this.toks, relocatable, errors := env, toks, false, 0;
    }

    function Now(): State
      reads this
    {
      State(toks, relocatable, errors)
    }

    method NextToken()
      modifies this
      ensures Now() == Next(old(Now()))
    {
      if toks != [] {
        toks := toks[1..];
      }
    }

    method ParserError()
      modifies this
      ensures Now() == Failed(old(Now()))
    {
      errors := errors + 1;
    }

    predicate TokenIs(t: Token)
      reads this
    {
      At(Now(), t)
    }

    method Accept(t: Token) returns (taken: bool)
      modifies this
      ensures taken == At(old(Now()), t) && Now() == if taken then Next(old(Now())) else old(Now())
    {
      taken := TokenIs(t);
      if taken {
        NextToken();
      }
    }

    method ExpectToken(t: Token)
      modifies this
      ensures Now() == Expect(old(Now()), t)
    {
      var taken := Accept(t);
      if !taken {
        ParserError();
      }
    }

    /** The first region of that name. */
    method FindMemoryName(name: string) returns (r: Option<Memory>)
      ensures r == FindMemory(env.memories, name)
    {
      var i := 0;
      while i < |env.memories|
        invariant 0 <= i <= |env.memories| && FindMemory(env.memories, name) == FindMemory(env.memories[i..], name)
      {
        if env.memories[i].name == name {
          return Some(env.memories[i]);
        }
        i := i + 1;
      }
      r := None;
    }

    /** The latest symbol of that name: the search goes backwards. */
    method FindScriptSymbol(name: string) returns (r: Option<Symbol>)
      ensures r == FindSymbol(env.symbols, name)
    {
      var i := |env.symbols|;
      assert env.symbols[..i] == env.symbols;
      while i > 0
        invariant 0 <= i <= |env.symbols| && FindSymbol(env.symbols, name) == FindSymbol(env.symbols[..i], name)
      {
        if env.symbols[i - 1].name == name {
          return Some(env.symbols[i - 1]);
        }
        assert env.symbols[..i][..i - 1] == env.symbols[..i - 1];
        i := i - 1;
      }
      r := None;
    }

    method ParsePrimary() returns (value: u64)
      modifies this
      ensures (value, Now()) == Primary(env, old(Now()))
      decreases |toks|, 3
    {
      hide Named, Expression;
      if toks == [] {
        ParserError();
        return 0;
      }
      match toks[0]
      case Number(v) =>
        NextToken();
        return v;
      case Tilde =>
        NextToken();
        var a := ParsePrimary();
        return Complement(a);
      case Minus =>
        NextToken();
        var a := ParsePrimary();
        return Negate(a);
      case LParen =>
        NextToken();
        value := ParseExpression();
        ExpectToken(RParen);
      case Ident(name) =>
        NextToken();
        value := ParseNamed(name);
      case _ =>
        ParserError();
        return 0;
    }

    /** The cases of a word, which has been taken. */
    method ParseNamed(name: string) returns (value: u64)
      modifies this
      ensures (value, Now()) == Named(env, name, old(Now()))
      decreases |toks|, 30
    {
      hide AlignCall, ConstantCall, ExtremeCall, RegionCall, Parenthesised, DefinedCall, SectionCall, Expression;
      if IsDot(name) {
        relocatable := true;
        return 0;
      }
      if name == "SIZEOF_HEADERS" {
        return HeadersSize(env);
      }
      if IsAlign(name) {
        value := ParseAlign();
      } else if name == "CONSTANT" {
        value := ParseConstant();
      } else if name == "MAX" || name == "MIN" {
        value := ParseExtreme(name == "MAX");
      } else if IsRegion(name) {
        value := ParseRegion(IsLength(name));
      } else if name == "ABSOLUTE" {
        value := ParseParenthesised();
      } else if name == "DEFINED" {
        value := ParseDefined();
      } else if IsSection(name) {
        value := ParseSection();
      } else {
        var symbol := FindScriptSymbol(name);
        if symbol.None? || !symbol.value.hasAbsolute {
          relocatable := true;
          return 0;
        }
        value := symbol.value.absolute;
      }
    }

    method ParseParenthesised() returns (value: u64)
      modifies this
      ensures (value, Now()) == Parenthesised(env, old(Now()))
      decreases |toks|, 29
    {
      hide Expression;
      ExpectToken(LParen);
      value := ParseExpression();
      ExpectToken(RParen);
    }

    method ParseAlign() returns (value: u64)
      modifies this
      ensures (value, Now()) == AlignCall(env, old(Now()))
      decreases |toks|, 29
    {
      hide Expression, AlignUp;
      ExpectToken(LParen);
      var first := ParseExpression();
      var two := Accept(Comma);
      if two {
        var multiple := ParseExpression();
        value := AlignUp(first, multiple);
      } else {
        value := AlignUp(0, first);
        relocatable := true;
      }
      ExpectToken(RParen);
    }

    method ParseConstant() returns (value: u64)
      modifies this
      ensures (value, Now()) == ConstantCall(old(Now()))
    {
      ExpectToken(LParen);
      if AtIdent(Now()) {
        NextToken();
      }
      ExpectToken(RParen);
      value := PAGE_SIZE;
    }

    method ParseExtreme(max: bool) returns (value: u64)
      modifies this
      ensures (value, Now()) == ExtremeCall(env, max, old(Now()))
      decreases |toks|, 29
    {
      hide Expression;
      ExpectToken(LParen);
      var a := ParseExpression();
      ExpectToken(Comma);
      var b := ParseExpression();
      ExpectToken(RParen);
      value := if max then (if a > b then a else b) else if a < b then a else b;
    }

    method ParseRegion(wantLength: bool) returns (value: u64)
      modifies this
      ensures (value, Now()) == RegionCall(env, wantLength, old(Now()))
    {
      hide FindMemory;
      ExpectToken(LParen);
      value := 0;
      if toks != [] && (toks[0].Ident? || toks[0].Str?) {
        var name := if toks[0].Ident? then toks[0].name else toks[0].text;
        var region := FindMemoryName(name);
        match region
        case Some(m) =>
          value := if wantLength then m.length else m.origin;
          NextToken();
        case None =>
          ParserError();
          NextToken();
      } else {
        ParserError();
      }
      ExpectToken(RParen);
    }

    method ParseDefined() returns (value: u64)
      modifies this
      ensures (value, Now()) == DefinedCall(env, old(Now()))
    {
      hide FindSymbol;
      ExpectToken(LParen);
      value := 0;
      if AtIdent(Now()) {
        var symbol := FindScriptSymbol(toks[0].name);
        value := if symbol.Some? then 1 else 0;
        NextToken();
      } else {
        ParserError();
      }
      ExpectToken(RParen);
    }

    method ParseSection() returns (value: u64)
      modifies this
      ensures (value, Now()) == SectionCall(env, old(Now()))
      decreases |toks|, 29
    {
      hide Expression;
      var open := Accept(LParen);
      if open {
        var _ := ParseExpression();
        ExpectToken(RParen);
      }
      relocatable := true;
      value := 0;
    }

    method ParseMul() returns (value: u64)
      modifies this
      ensures (value, Now()) == Level(env, 5, old(Now()))
      decreases |toks|, 5
    {
      hide Primary, ApplyOp;
      value := ParsePrimary();
      while toks != [] && (toks[0] == Star || toks[0] == Slash)
        invariant Loop(env, 5, value, Now()) == Level(env, 5, old(Now()))
        invariant |toks| <= old(|toks|)
        decreases |toks|
      {
        var op := toks[0];
        NextToken();
        var rhs := ParsePrimary();
        value := ApplyOp(if op == Star then MulOp else DivOp, value, rhs);
      }
    }

    method ParseAdd() returns (value: u64)
      modifies this
      ensures (value, Now()) == Level(env, 4, old(Now()))
      decreases |toks|, 6
    {
      hide Primary, ApplyOp;
      value := ParseMul();
      while toks != [] && (toks[0] == Plus || toks[0] == Minus)
        invariant Loop(env, 4, value, Now()) == Level(env, 4, old(Now()))
        invariant |toks| <= old(|toks|)
        decreases |toks|
      {
        var op := toks[0];
        NextToken();
        var rhs := ParseMul();
        value := ApplyOp(if op == Plus then AddOp else SubOp, value, rhs);
      }
    }

    method ParseShift() returns (value: u64)
      modifies this
      ensures (value, Now()) == Level(env, 3, old(Now()))
      decreases |toks|, 7
    {
      hide Primary, ApplyOp;
      value := ParseAdd();
      while toks != [] && (toks[0] == ShlTok || toks[0] == ShrTok)
        invariant Loop(env, 3, value, Now()) == Level(env, 3, old(Now()))
        invariant |toks| <= old(|toks|)
        decreases |toks|
      {
        var op := toks[0];
        NextToken();
        var rhs := ParseAdd();
        value := ApplyOp(if op == ShlTok then ShlOp else ShrOp, value, rhs);
      }
    }

    method ParseAnd() returns (value: u64)
      modifies this
      ensures (value, Now()) == Level(env, 2, old(Now()))
      decreases |toks|, 8
    {
      hide Primary, ApplyOp;
      value := ParseShift();
      while TokenIs(Amp)
        invariant Loop(env, 2, value, Now()) == Level(env, 2, old(Now()))
        invariant |toks| <= old(|toks|)
        decreases |toks|
      {
        NextToken();
        var rhs := ParseShift();
        value := ApplyOp(AndOp, value, rhs);
      }
    }

    method ParseOr() returns (value: u64)
      modifies this
      ensures (value, Now()) == Level(env, 1, old(Now()))
      decreases |toks|, 9
    {
      hide Primary, ApplyOp;
      value := ParseAnd();
      while TokenIs(Pipe)
        invariant Loop(env, 1, value, Now()) == Level(env, 1, old(Now()))
        invariant |toks| <= old(|toks|)
        decreases |toks|
      {
        NextToken();
        var rhs := ParseAnd();
        value := ApplyOp(OrOp, value, rhs);
      }
    }

    method ParseExpression() returns (value: u64)
      modifies this
      ensures (value, Now()) == Expression(env, old(Now()))
      decreases |toks|, 20
    {
      hide Level;
      value := ParseOr();
      var question := Accept(Question);
      if question {
        var yes := ParseExpression();
        ExpectToken(Colon);
        var no := ParseExpression();
        value := if value != 0 then yes else no;
      }
    }
  }
}
