/** The parser as it runs: a shared position that every `parseXyz` moves forward on success and puts back on
    failure. */
module LogicParserState {
  import opened LogicParser
  import opened LogicTokenizer

  /** What a `parseXyz` returns: an expression, `undefined`, or an exception. */
  datatype Outcome<+T> = Found(value: T) | NotFound | Thrown

  /** The outcome and the position after the call are those of the parsing function. */
  ghost predicate Matches<T>(spec: Parse<T>, before: nat, r: Outcome<T>, after: nat) {
    match spec
    case Fail => r == NotFound && after == before
    case Throw => r == Thrown
    case Success(value, pos) => r == Found(value) && after == pos
  }

  class ParserState {
    const tokens: seq<Token>
    var pos: nat

    constructor (tokens: seq<Token>)
      ensures this.tokens == tokens && pos == 0
    {
      this.tokens := tokens;
      pos := 0;
    }

    predicate Sees(k: TokenKind)
      reads this
    {
      Is(tokens, pos, k)
    }

    method ParseIdentifierAt() returns (r: Outcome<string>)
      modifies this
      ensures if Is(tokens, old(pos), Identifier)
              then r == Found(tokens[old(pos)].value) && pos == old(pos) + 1
              else r == NotFound && pos == old(pos)
    {
      if Sees(Identifier) {
        r := Found(tokens[pos].value);
        pos := pos + 1;
      } else {
        r := NotFound;
      }
    }

    method ParseOperatorAt() returns (r: Outcome<Operator>)
      modifies this
      ensures if old(pos) < |tokens| && OperatorOf(tokens[old(pos)].kind).Some?
              then r == Found(OperatorOf(tokens[old(pos)].kind).value) && pos == old(pos) + 1
              else r == NotFound && pos == old(pos)
    {
      if pos < |tokens| && OperatorOf(tokens[pos].kind).Some? {
        r := Found(OperatorOf(tokens[pos].kind).value);
        pos := pos + 1;
      } else {
        r := NotFound;
      }
    }

    method ParseVersionAt() returns (r: Outcome<Literal>)
      modifies this
      ensures Matches(ParseVersion(tokens, old(pos)), old(pos), r, pos)
    {
      var p := pos;
      if !Is(tokens, p, NumberLiteral) { return NotFound; }
      var version := tokens[p].value;
      p := p + 1;
      if !Is(tokens, p, Dot) { return NotFound; }
      version := version + ".";
      p := p + 1;
      if !Is(tokens, p, NumberLiteral) { return NotFound; }
      version := version + tokens[p].value;
      p := p + 1;
      if Is(tokens, p, Dot) {
        version := version + ".";
        p := p + 1;
        if !Is(tokens, p, NumberLiteral) { return NotFound; }
        version := version + tokens[p].value;
        p := p + 1;
      }
      pos := p;
      return Found(Version(version));
    }

    method ParseNumberLiteralAt() returns (r: Outcome<Literal>)
      modifies this
      ensures if Is(tokens, old(pos), NumberLiteral)
              then r == Found(NumberValue(ParseInt(tokens[old(pos)].value))) && pos == old(pos) + 1
              else r == NotFound && pos == old(pos)
    {
      if Sees(NumberLiteral) {
        r := Found(NumberValue(ParseInt(tokens[pos].value)));
        pos := pos + 1;
      } else {
        r := NotFound;
      }
    }

    method ParseComparisonAt() returns (r: Outcome<Expr>)
      modifies this
      ensures Matches(ParseComparison(tokens, old(pos)), old(pos), r, pos)
    {
      var startPos := pos;
      var left := ParseIdentifierAt();
      if left == NotFound {
        pos := startPos;
        return NotFound;
      }
      var operator := ParseOperatorAt();
      if operator == NotFound {
        pos := startPos;
        return NotFound;
      }
      var right := ParseVersionAt();
      if right == NotFound {
        right := ParseNumberLiteralAt();
      }
      if right == NotFound {
        var identifier := ParseIdentifierAt();
        if identifier == NotFound {
          pos := startPos;
          return NotFound;
        }
        return Thrown;
      }
      return Found(Comparison(left.value, operator.value, right.value));
    }

    method ParseGroupAt() returns (r: Outcome<Expr>)
      modifies this
      ensures Matches(ParseGroup(tokens, old(pos)), old(pos), r, pos)
      decreases if pos <= |tokens| then |tokens| - pos else 0, 0
    {
      hide ParseExpression;
      var startPos := pos;
      if !Sees(LeftParen) {
        return NotFound;
      }
      pos := pos + 1;
      var expression := ParseExpressionAt();
      if expression == Thrown {
        return Thrown;
      }
      if expression == NotFound {
        pos := startPos;
        return NotFound;
      }
      if !Sees(RightParen) {
        pos := startPos;
        return NotFound;
      }
      pos := pos + 1;
      return expression;
    }

    method ParseAtomAt() returns (r: Outcome<Expr>)
      modifies this
      ensures Matches(ParseAtom(tokens, old(pos)), old(pos), r, pos)
      decreases if pos <= |tokens| then |tokens| - pos else 0, 1
    {
      hide ParseComparison, ParseGroup;
      r := ParseComparisonAt();
      if r == NotFound {
        r := ParseGroupAt();
      }
    }

    method ParseAndAt() returns (r: Outcome<Expr>)
      modifies this
      ensures Matches(ParseAnd(tokens, old(pos)), old(pos), r, pos)
      decreases if pos <= |tokens| then |tokens| - pos else 0, 3
    {
      hide ParseAtom;
      var startPos := pos;
      var first := ParseAtomAt();
      if !first.Found? {
        return first;
      }
      if !Sees(AmpAmp) {
        pos := startPos;
        return NotFound;
      }
      pos := pos + 1;
      var second := ParseAtomAt();
      if second == Thrown {
        return Thrown;
      }
      if second == NotFound {
        pos := startPos;
        return NotFound;
      }
      startPos := pos;
      ghost var rest, collected := MoreAtoms(tokens, pos), [];
      assert rest.Success? ==> [] + rest.value == rest.value;
      var operands := [first.value, second.value];
      while Sees(AmpAmp)
        invariant old(pos) < pos <= |tokens| && startPos == pos
        invariant operands == [first.value, second.value] + collected
        invariant Continues(rest, collected, MoreAtoms(tokens, pos))
        decreases |tokens| - pos
      {
        pos := pos + 1;
        var next := ParseAtomAt();
        if next == Thrown {
          return Thrown;
        }
        if next == NotFound {
          pos := startPos;
          break;
        }
        ContinueWith(rest, collected, next.value, MoreAtoms(tokens, pos));
        collected := collected + [next.value];
        operands := operands + [next.value];
        startPos := pos;
      }
      assert collected + [] == collected;
      return Found(And(operands));
    }

    method ParseOperandAt() returns (r: Outcome<Expr>)
      modifies this
      ensures Matches(ParseOperand(tokens, old(pos)), old(pos), r, pos)
      decreases if pos <= |tokens| then |tokens| - pos else 0, 4
    {
      hide ParseAnd, ParseAtom;
      r := ParseAndAt();
      if r == NotFound {
        r := ParseAtomAt();
      }
    }

    method ParseOrAt() returns (r: Outcome<Expr>)
      modifies this
      ensures Matches(ParseOr(tokens, old(pos)), old(pos), r, pos)
      decreases if pos <= |tokens| then |tokens| - pos else 0, 6
    {
      hide ParseOperand;
      var startPos := pos;
      var first := ParseOperandAt();
      if !first.Found? {
        return first;
      }
      if !Sees(BarBar) {
        pos := startPos;
        return NotFound;
      }
      pos := pos + 1;
      var second := ParseOperandAt();
      if second == Thrown {
        return Thrown;
      }
      if second == NotFound {
        pos := startPos;
        return NotFound;
      }
      startPos := pos;
      ghost var rest, collected := MoreOperands(tokens, pos), [];
      assert rest.Success? ==> [] + rest.value == rest.value;
      var operands := [first.value, second.value];
      while Sees(BarBar)
        invariant old(pos) < pos <= |tokens| && startPos == pos
        invariant operands == [first.value, second.value] + collected
        invariant Continues(rest, collected, MoreOperands(tokens, pos))
        decreases |tokens| - pos
      {
        pos := pos + 1;
        var next := ParseOperandAt();
        if next == Thrown {
          return Thrown;
        }
        if next == NotFound {
          pos := startPos;
          break;
        }
        ContinueWith(rest, collected, next.value, MoreOperands(tokens, pos));
        collected := collected + [next.value];
        operands := operands + [next.value];
        startPos := pos;
      }
      assert collected + [] == collected;
      return Found(Or(operands));
    }

    method ParseExpressionAt() returns (r: Outcome<Expr>)
      modifies this
      ensures Matches(ParseExpression(tokens, old(pos)), old(pos), r, pos)
      decreases if pos <= |tokens| then |tokens| - pos else 0, 7
    {
      hide ParseOr, ParseOperand;
      r := ParseOrAt();
      if r == NotFound {
        r := ParseOperandAt();
      }
    }
  }

  /** Collecting `collected` first and the operands of `rest` afterwards gives `whole`. */
  ghost predicate Continues(whole: Parse<seq<Expr>>, collected: seq<Expr>, rest: Parse<seq<Expr>>) {
    whole == if rest.Success? then Success(collected + rest.value, rest.pos) else rest
  }

  lemma ContinueWith(whole: Parse<seq<Expr>>, collected: seq<Expr>, next: Expr, more: Parse<seq<Expr>>)
    requires Continues(whole, collected, if more.Success? then Success([next] + more.value, more.pos) else more)
    ensures Continues(whole, collected + [next], more)
  {
    if more.Success? {
      assert collected + ([next] + more.value) == (collected + [next]) + more.value;
    }
  }

  /** `parse`. */
  method ParseInput(input: string) returns (r: ParseResult)
    ensures r == ParseString(input)
  {
    var lexed := Tokenize(input);
    if !lexed.Tokens? {
      return Error;
    }
    var state := new ParserState(lexed.tokens);
    var ret := state.ParseExpressionAt();
    if ret == Thrown || state.pos < |lexed.tokens| {
      return Error;
    }
    return if ret.Found? then Tree(ret.value) else Undefined;
  }
}
