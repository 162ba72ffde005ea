/** The backtracking parser of the condition language, its grammar, and the proof that it decides the grammar. */
module LogicParser {
  import opened LogicTokenizer
  import opened Text
  import opened Wrappers

  // ---- Expression trees

  datatype Operator = Equal | NotEqual | Less | LessOrEqual | Greater | GreaterOrEqual

  /** What `parseInt` returns. */
  datatype Number = NaN | Int(value: nat)

  datatype Literal = NumberValue(number: Number) | Version(text: string)

  datatype Expr =
    | Or(operands: seq<Expr>)
    | And(operands: seq<Expr>)
    | Comparison(left: string, op: Operator, right: Literal)

  function HexValue(c: char): nat
    requires IsHexDigit(c)
  {
    if IsDigit(c) then DigitValue(c)
    else if 'a' <= c <= 'f' then (c - 'a') as nat + 10
    else (c - 'A') as nat + 10
  }

  function ParseHex(s: string): nat
    requires AllIn(s, HexDigits)
  {
    if s == "" then 0 else 16 * ParseHex(s[..|s| - 1]) + HexValue(s[|s| - 1])
  }

  /** `parseInt` of a number token, which is decimal or has the prefix `0x`. */
  function ParseInt(s: string): Number {
    if "0x" <= s then
      if |s| > 2 && AllIn(s[2..], HexDigits) then Int(ParseHex(s[2..])) else NaN
    else if s != "" && AllDigits(s) then Int(ParseDecimal(s))
    else NaN
  }

  // ---- Token classes

  type Toks = seq<Token>

  predicate Is(ts: Toks, i: nat, k: TokenKind) {
    i < |ts| && ts[i].kind == k
  }

  function OperatorOf(k: TokenKind): Option<Operator> {
    match k
    case EqualsEquals => Some(Equal)
    case EqualsEqualsEquals => Some(Equal)
    case ExclamationEquals => Some(NotEqual)
    case ExclamationEqualsEquals => Some(NotEqual)
    case LessThan => Some(Less)
    case LessThanEquals => Some(LessOrEqual)
    case GreaterThan => Some(Greater)
    case GreaterThanEquals => Some(GreaterOrEqual)
    case _ => None
  }

  // ---- The layered grammar

  /** The tokens from `i` up to `j` are a number, or two or three numbers with dots between them. */
  ghost predicate IsLiteral(ts: Toks, i: nat, j: nat, r: Literal) {
    && j <= |ts| && Is(ts, i, NumberLiteral)
    && ((j == i + 1 && r == NumberValue(ParseInt(ts[i].value)))
       || (j == i + 3 && Is(ts, i + 1, Dot) && Is(ts, i + 2, NumberLiteral)
           && r == Version(ts[i].value + "." + ts[i + 2].value))
       || (j == i + 5 && Is(ts, i + 1, Dot) && Is(ts, i + 2, NumberLiteral) && Is(ts, i + 3, Dot)
           && Is(ts, i + 4, NumberLiteral)
           && r == Version(ts[i].value + "." + ts[i + 2].value + "." + ts[i + 4].value)))
  }

  ghost predicate IsComparison(ts: Toks, i: nat, j: nat, e: Expr) {
    && e.Comparison? && i + 2 < j <= |ts|
    && Is(ts, i, Identifier) && ts[i].value == e.left
    && OperatorOf(ts[i + 1].kind) == Some(e.op)
    && IsLiteral(ts, i + 2, j, e.right)
  }

  /** comparison | "(" expression ")" */
  ghost predicate DerivesAtom(ts: Toks, i: nat, j: nat, e: Expr)
    decreases if i <= j then j - i else 0, 0
  {
    || IsComparison(ts, i, j, e)
    || (i + 2 <= j <= |ts| && Is(ts, i, LeftParen) && Is(ts, j - 1, RightParen) && DerivesExpr(ts, i + 1, j - 1, e))
  }

  /** atom { "&&" atom } */
  ghost predicate DerivesAtoms(ts: Toks, i: nat, j: nat, es: seq<Expr>)
    decreases if i <= j then j - i else 0, 1
  {
    || (|es| == 1 && DerivesAtom(ts, i, j, es[0]))
    || (|es| > 1 && exists k | i < k < j ::
          DerivesAtom(ts, i, k, es[0]) && Is(ts, k, AmpAmp) && DerivesAtoms(ts, k + 1, j, es[1..]))
  }

  /** An atom, or a conjunction of at least two atoms. */
  ghost predicate DerivesOperand(ts: Toks, i: nat, j: nat, e: Expr)
    decreases if i <= j then j - i else 0, 2
  {
    DerivesAtom(ts, i, j, e) || (e.And? && |e.operands| >= 2 && DerivesAtoms(ts, i, j, e.operands))
  }

  /** operand { "||" operand } */
  ghost predicate DerivesOperands(ts: Toks, i: nat, j: nat, es: seq<Expr>)
    decreases if i <= j then j - i else 0, 3
  {
    || (|es| == 1 && DerivesOperand(ts, i, j, es[0]))
    || (|es| > 1 && exists k | i < k < j ::
          DerivesOperand(ts, i, k, es[0]) && Is(ts, k, BarBar) && DerivesOperands(ts, k + 1, j, es[1..]))
  }

  /** An operand, or a disjunction of at least two operands, so `&&` binds tighter than `||`. */
  ghost predicate DerivesExpr(ts: Toks, i: nat, j: nat, e: Expr)
    decreases if i <= j then j - i else 0, 4
  {
    DerivesOperand(ts, i, j, e) || (e.Or? && |e.operands| >= 2 && DerivesOperands(ts, i, j, e.operands))
  }

  // ---- The parser, as functions from a position to a result and the position after it

  /** `Fail` is the `undefined` that makes the caller try the next alternative; `Throw` is the exception for a
      comparison with an identifier on the right. */
  datatype Parse<+T> = Fail | Throw | Success(value: T, pos: nat)

  /** The position after a version, if there is one at `pos`. */
  function ParseVersion(ts: Toks, pos: nat): (r: Parse<Literal>)
    ensures r.Success? ==> pos < r.pos <= |ts|
    ensures !r.Throw?
  {
    if !(Is(ts, pos, NumberLiteral) && Is(ts, pos + 1, Dot) && Is(ts, pos + 2, NumberLiteral)) then Fail
    else
      var two := ts[pos].value + "." + ts[pos + 2].value;
      if !Is(ts, pos + 3, Dot) then Success(Version(two), pos + 3)
      else if Is(ts, pos + 4, NumberLiteral) then Success(Version(two + "." + ts[pos + 4].value), pos + 5)
      else Fail
  }

  function ParseComparison(ts: Toks, pos: nat): (r: Parse<Expr>)
    ensures r.Success? ==> pos < r.pos <= |ts|
  {
    if !Is(ts, pos, Identifier) then Fail
    else if !(pos + 1 < |ts| && OperatorOf(ts[pos + 1].kind).Some?) then Fail
    else
      var left, op := ts[pos].value, OperatorOf(ts[pos + 1].kind).value;
      var version := ParseVersion(ts, pos + 2);
      if version.Success? then Success(Comparison(left, op, version.value), version.pos)
      else if Is(ts, pos + 2, NumberLiteral) then
        Success(Comparison(left, op, NumberValue(ParseInt(ts[pos + 2].value))), pos + 3)
      else if Is(ts, pos + 2, Identifier) then Throw
      else Fail
  }

  function ParseGroup(ts: Toks, pos: nat): (r: Parse<Expr>)
    ensures r.Success? ==> pos < r.pos <= |ts|
    decreases if pos <= |ts| then |ts| - pos else 0, 0
  {
    if !Is(ts, pos, LeftParen) then Fail
    else
      var inner := ParseExpression(ts, pos + 1);
      if !inner.Success? then inner
      else if Is(ts, inner.pos, RightParen) then Success(inner.value, inner.pos + 1)
      else Fail
  }

  /** `parseComparison(s) || parseGroup(s)` */
  function ParseAtom(ts: Toks, pos: nat): (r: Parse<Expr>)
    ensures r.Success? ==> pos < r.pos <= |ts|
    decreases if pos <= |ts| then |ts| - pos else 0, 1
  {
    var c := ParseComparison(ts, pos);
    if !c.Fail? then c else ParseGroup(ts, pos)
  }

  /** The loop that collects further `&&` operands. */
  function MoreAtoms(ts: Toks, pos: nat): (r: Parse<seq<Expr>>)
    ensures r.Success? ==> pos <= r.pos && (r.pos <= |ts| || r.pos == pos)
    ensures !r.Fail?
    decreases if pos <= |ts| then |ts| - pos else 0, 2
  {
    if !Is(ts, pos, AmpAmp) then Success([], pos)
    else
      var next := ParseAtom(ts, pos + 1);
      if next.Throw? then Throw
      else if next.Fail? then Success([], pos)
      else
        var more := MoreAtoms(ts, next.pos);
        if more.Throw? then Throw else Success([next.value] + more.value, more.pos)
  }

  function ParseAnd(ts: Toks, pos: nat): (r: Parse<Expr>)
    ensures r.Success? ==> pos < r.pos <= |ts|
    decreases if pos <= |ts| then |ts| - pos else 0, 3
  {
    var first := ParseAtom(ts, pos);
    if !first.Success? then first
    else if !Is(ts, first.pos, AmpAmp) then Fail
    else
      var second := ParseAtom(ts, first.pos + 1);
      if !second.Success? then second
      else
        var more := MoreAtoms(ts, second.pos);
        if more.Throw? then Throw else Success(And([first.value, second.value] + more.value), more.pos)
  }

  /** `parseAnd(s) || parseComparison(s) || parseGroup(s)` */
  function ParseOperand(ts: Toks, pos: nat): (r: Parse<Expr>)
    ensures r.Success? ==> pos < r.pos <= |ts|
    decreases if pos <= |ts| then |ts| - pos else 0, 4
  {
    var a := ParseAnd(ts, pos);
    if !a.Fail? then a else ParseAtom(ts, pos)
  }

  /** The loop that collects further `||` operands. */
  function MoreOperands(ts: Toks, pos: nat): (r: Parse<seq<Expr>>)
    ensures r.Success? ==> pos <= r.pos && (r.pos <= |ts| || r.pos == pos)
    ensures !r.Fail?
    decreases if pos <= |ts| then |ts| - pos else 0, 5
  {
    if !Is(ts, pos, BarBar) then Success([], pos)
    else
      var next := ParseOperand(ts, pos + 1);
      if next.Throw? then Throw
      else if next.Fail? then Success([], pos)
      else
        var more := MoreOperands(ts, next.pos);
        if more.Throw? then Throw else Success([next.value] + more.value, more.pos)
  }

  function ParseOr(ts: Toks, pos: nat): (r: Parse<Expr>)
    ensures r.Success? ==> pos < r.pos <= |ts|
    decreases if pos <= |ts| then |ts| - pos else 0, 6
  {
    var first := ParseOperand(ts, pos);
    if !first.Success? then first
    else if !Is(ts, first.pos, BarBar) then Fail
    else
      var second := ParseOperand(ts, first.pos + 1);
      if !second.Success? then second
      else
        var more := MoreOperands(ts, second.pos);
        if more.Throw? then Throw else Success(Or([first.value, second.value] + more.value), more.pos)
  }

  /** `parseOr(s) || parseAnd(s) || parseComparison(s) || parseGroup(s)` */
  function ParseExpression(ts: Toks, pos: nat): (r: Parse<Expr>)
    ensures r.Success? ==> pos < r.pos <= |ts|
    decreases if pos <= |ts| then |ts| - pos else 0, 7
  {
    var o := ParseOr(ts, pos);
    if !o.Fail? then o else ParseOperand(ts, pos)
  }

  /** A tree, `undefined`, or an exception. */
  datatype ParseResult = Tree(expr: Expr) | Undefined | Error

  /** The whole token list must be used up. */
  function ParseTokens(ts: Toks): ParseResult {
    match ParseExpression(ts, 0)
    case Throw => Error
    case Fail => if ts == [] then Undefined else Error
    case Success(e, pos) => if pos < |ts| then Error else Tree(e)
  }

  function ParseString(input: string): ParseResult {
    var r := Lex(input, 0);
    if r.Tokens? then ParseTokens(r.tokens) else Error
  }

  // ---- Soundness: what the parser returns is derived from the tokens it has moved past

  lemma ComparisonSound(ts: Toks, pos: nat)
    requires ParseComparison(ts, pos).Success?
    ensures IsComparison(ts, pos, ParseComparison(ts, pos).pos, ParseComparison(ts, pos).value)
  {
  }

  lemma {:induction false} AtomSound(ts: Toks, pos: nat)
    requires ParseAtom(ts, pos).Success?
    ensures DerivesAtom(ts, pos, ParseAtom(ts, pos).pos, ParseAtom(ts, pos).value)
    decreases if pos <= |ts| then |ts| - pos else 0, 1
  {
    hide ParseComparison, IsComparison;
    if ParseComparison(ts, pos).Success? {
      ComparisonSound(ts, pos);
    } else {
      ExpressionSound(ts, pos + 1);
    }
  }

  lemma {:induction false} MoreAtomsSound(ts: Toks, pos: nat, e: Expr, i: nat)
    requires MoreAtoms(ts, pos).Success? && i < pos <= |ts| && DerivesAtom(ts, i, pos, e)
    ensures DerivesAtoms(ts, i, MoreAtoms(ts, pos).pos, [e] + MoreAtoms(ts, pos).value)
    decreases if pos <= |ts| then |ts| - pos else 0, 2
  {
    hide ParseAtom, DerivesAtom;
    var es := [e] + MoreAtoms(ts, pos).value;
    if Is(ts, pos, AmpAmp) && ParseAtom(ts, pos + 1).Success? {
      var next := ParseAtom(ts, pos + 1);
      AtomSound(ts, pos + 1);
      MoreAtomsSound(ts, next.pos, next.value, pos + 1);
      assert es[1..] == [next.value] + MoreAtoms(ts, next.pos).value;
    }
  }

  lemma {:induction false} OperandSound(ts: Toks, pos: nat)
    requires ParseOperand(ts, pos).Success?
    ensures DerivesOperand(ts, pos, ParseOperand(ts, pos).pos, ParseOperand(ts, pos).value)
    decreases if pos <= |ts| then |ts| - pos else 0, 4
  {
    hide ParseAtom, DerivesAtom, MoreAtoms;
    if ParseAnd(ts, pos).Success? {
      var first := ParseAtom(ts, pos);
      var second := ParseAtom(ts, first.pos + 1);
      AtomSound(ts, pos);
      AtomSound(ts, first.pos + 1);
      MoreAtomsSound(ts, second.pos, second.value, first.pos + 1);
      var es := ParseAnd(ts, pos).value.operands;
      assert es[1..] == [second.value] + MoreAtoms(ts, second.pos).value;
      assert pos < first.pos < ParseAnd(ts, pos).pos;
    } else {
      AtomSound(ts, pos);
    }
  }

  lemma {:induction false} MoreOperandsSound(ts: Toks, pos: nat, e: Expr, i: nat)
    requires MoreOperands(ts, pos).Success? && i < pos <= |ts| && DerivesOperand(ts, i, pos, e)
    ensures DerivesOperands(ts, i, MoreOperands(ts, pos).pos, [e] + MoreOperands(ts, pos).value)
    decreases if pos <= |ts| then |ts| - pos else 0, 5
  {
    hide ParseOperand, DerivesOperand;
    var es := [e] + MoreOperands(ts, pos).value;
    if Is(ts, pos, BarBar) && ParseOperand(ts, pos + 1).Success? {
      var next := ParseOperand(ts, pos + 1);
      OperandSound(ts, pos + 1);
      MoreOperandsSound(ts, next.pos, next.value, pos + 1);
      assert es[1..] == [next.value] + MoreOperands(ts, next.pos).value;
    }
  }

  lemma {:induction false} ExpressionSound(ts: Toks, pos: nat)
    requires ParseExpression(ts, pos).Success?
    ensures DerivesExpr(ts, pos, ParseExpression(ts, pos).pos, ParseExpression(ts, pos).value)
    decreases if pos <= |ts| then |ts| - pos else 0, 7
  {
    hide ParseOperand, DerivesOperand, MoreOperands;
    if ParseOr(ts, pos).Success? {
      var first := ParseOperand(ts, pos);
      var second := ParseOperand(ts, first.pos + 1);
      OperandSound(ts, pos);
      OperandSound(ts, first.pos + 1);
      MoreOperandsSound(ts, second.pos, second.value, first.pos + 1);
      var es := ParseOr(ts, pos).value.operands;
      assert es[1..] == [second.value] + MoreOperands(ts, second.pos).value;
      assert pos < first.pos < ParseOr(ts, pos).pos;
    } else {
      OperandSound(ts, pos);
    }
  }

  // ---- Completeness: whatever is derived and followed by a token that ends it, is found

  /** `j` is the end of the tokens or stands before one of the tokens that can follow an atom. */
  predicate EndsAtom(ts: Toks, j: nat) {
    j == |ts| || Is(ts, j, RightParen) || Is(ts, j, BarBar) || Is(ts, j, AmpAmp)
  }

  predicate EndsOperand(ts: Toks, j: nat) {
    j == |ts| || Is(ts, j, RightParen) || Is(ts, j, BarBar)
  }

  predicate EndsExpression(ts: Toks, j: nat) {
    j == |ts| || Is(ts, j, RightParen)
  }

  lemma ComparisonComplete(ts: Toks, i: nat, j: nat, e: Expr)
    requires IsComparison(ts, i, j, e) && EndsAtom(ts, j)
    ensures ParseComparison(ts, i) == Success(e, j)
  {
  }

  lemma {:induction false} AtomComplete(ts: Toks, i: nat, j: nat, e: Expr)
    requires DerivesAtom(ts, i, j, e) && EndsAtom(ts, j)
    ensures i < j <= |ts| && ParseAtom(ts, i) == Success(e, j)
    decreases if i <= j then j - i else 0, 0
  {
    hide ParseExpression, DerivesExpr;
    if IsComparison(ts, i, j, e) {
      ComparisonComplete(ts, i, j, e);
    } else {
      ExpressionComplete(ts, i + 1, j - 1, e);
    }
  }

  lemma {:induction false} AtomsComplete(ts: Toks, i: nat, j: nat, es: seq<Expr>)
    requires DerivesAtoms(ts, i, j, es) && EndsOperand(ts, j)
    ensures i < j <= |ts|
    ensures var first := ParseAtom(ts, i);
            first.Success? && first.value == es[0] && MoreAtoms(ts, first.pos) == Success(es[1..], j)
            && (|es| > 1 ==> Is(ts, first.pos, AmpAmp)) && (|es| == 1 ==> first.pos == j)
    decreases if i <= j then j - i else 0, 1
  {
    hide ParseAtom, DerivesAtom;
    if |es| == 1 {
      AtomComplete(ts, i, j, es[0]);
    } else {
      var k :| i < k < j && DerivesAtom(ts, i, k, es[0]) && Is(ts, k, AmpAmp) && DerivesAtoms(ts, k + 1, j, es[1..]);
      AtomComplete(ts, i, k, es[0]);
      AtomsComplete(ts, k + 1, j, es[1..]);
      assert es[1..] == [es[1]] + es[2..];
      assert es[1..][1..] == es[2..];
    }
  }

  lemma {:induction false} OperandComplete(ts: Toks, i: nat, j: nat, e: Expr)
    requires DerivesOperand(ts, i, j, e) && EndsOperand(ts, j)
    ensures i < j <= |ts| && ParseOperand(ts, i) == Success(e, j)
    decreases if i <= j then j - i else 0, 2
  {
    hide ParseAtom, DerivesAtom, DerivesAtoms;
    if DerivesAtom(ts, i, j, e) {
      AtomComplete(ts, i, j, e);
    } else {
      var es := e.operands;
      AtomsComplete(ts, i, j, es);
      var first := ParseAtom(ts, i);
      assert es == [es[0], es[1]] + es[2..];
      assert es[1..][0] == es[1] && es[1..][1..] == es[2..];
      assert MoreAtoms(ts, first.pos).value != [];
    }
  }

  lemma {:induction false} OperandsComplete(ts: Toks, i: nat, j: nat, es: seq<Expr>)
    requires DerivesOperands(ts, i, j, es) && EndsExpression(ts, j)
    ensures i < j <= |ts|
    ensures var first := ParseOperand(ts, i);
            first.Success? && first.value == es[0] && MoreOperands(ts, first.pos) == Success(es[1..], j)
            && (|es| > 1 ==> Is(ts, first.pos, BarBar)) && (|es| == 1 ==> first.pos == j)
    decreases if i <= j then j - i else 0, 3
  {
    hide ParseOperand, DerivesOperand;
    if |es| == 1 {
      OperandComplete(ts, i, j, es[0]);
    } else {
      var k :| i < k < j && DerivesOperand(ts, i, k, es[0]) && Is(ts, k, BarBar)
               && DerivesOperands(ts, k + 1, j, es[1..]);
      OperandComplete(ts, i, k, es[0]);
      OperandsComplete(ts, k + 1, j, es[1..]);
      assert es[1..] == [es[1]] + es[2..];
      assert es[1..][1..] == es[2..];
    }
  }

  lemma {:induction false} ExpressionComplete(ts: Toks, i: nat, j: nat, e: Expr)
    requires DerivesExpr(ts, i, j, e) && EndsExpression(ts, j)
    ensures i < j <= |ts| && ParseExpression(ts, i) == Success(e, j)
    decreases if i <= j then j - i else 0, 4
  {
    hide ParseOperand, DerivesOperand, DerivesOperands;
    if DerivesOperand(ts, i, j, e) {
      OperandComplete(ts, i, j, e);
    } else {
      var es := e.operands;
      OperandsComplete(ts, i, j, es);
      var first := ParseOperand(ts, i);
      assert es == [es[0], es[1]] + es[2..];
      assert es[1..][0] == es[1] && es[1..][1..] == es[2..];
      assert MoreOperands(ts, first.pos).value != [];
    }
  }

  /** The parser decides the grammar: it returns a tree exactly if the whole token list derives it, `undefined`
      exactly for the empty list, and throws for everything else. */
  lemma ParserDecidesGrammar(ts: Toks)
    ensures forall e :: ParseTokens(ts) == Tree(e) <==> DerivesExpr(ts, 0, |ts|, e)
    ensures ParseTokens(ts) == Undefined <==> ts == []
  {
    hide ParseExpression, DerivesExpr;
    forall e ensures ParseTokens(ts) == Tree(e) <==> DerivesExpr(ts, 0, |ts|, e) {
      if ParseTokens(ts) == Tree(e) {
        ExpressionSound(ts, 0);
      }
      if DerivesExpr(ts, 0, |ts|, e) {
        ExpressionComplete(ts, 0, |ts|, e);
      }
    }
    if ts == [] && ParseExpression(ts, 0).Throw? {
      EmptyNeverThrows();
    }
  }

  lemma EmptyNeverThrows()
    ensures ParseExpression([], 0) == Fail
  {
  }

  /** The grammar is unambiguous. */
  lemma DerivationsAreUnique(ts: Toks, a: Expr, b: Expr)
    requires DerivesExpr(ts, 0, |ts|, a) && DerivesExpr(ts, 0, |ts|, b)
    ensures a == b
  {
    hide DerivesExpr, ParseTokens;
    ParserDecidesGrammar(ts);
    assert ParseTokens(ts) == Tree(a);
  }
}
