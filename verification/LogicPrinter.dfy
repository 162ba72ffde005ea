/** Writing an expression tree with as few parentheses as possible, and the proof that tokenizing and parsing
    the text gives the tree back. */
module LogicPrinter {
  import opened LogicParser
  import opened LogicTokenizer
  import opened Text

  function OperatorText(op: Operator): string {
    match op
    case Equal => "==="
    case NotEqual => "!=="
    case Less => "<"
    case LessOrEqual => "<="
    case Greater => ">"
    case GreaterOrEqual => ">="
  }

  function OperatorToken(op: Operator): TokenKind {
    match op
    case Equal => EqualsEqualsEquals
    case NotEqual => ExclamationEqualsEquals
    case Less => LessThan
    case LessOrEqual => LessThanEquals
    case Greater => GreaterThan
    case GreaterOrEqual => GreaterThanEquals
  }

  function PrintLiteral(r: Literal): string {
    match r
    case NumberValue(Int(n)) => Decimal(n)
    case NumberValue(NaN) => "0x"
    case Version(text) => text
  }

  function Parens(s: string): string {
    "(" + s + ")"
  }

  /** A conjunction needs parentheses around everything but comparisons, a disjunction only around
      disjunctions. */
  function Print(e: Expr): string
    decreases e, 0
  {
    match e
    case Comparison(left, op, right) => left + " " + OperatorText(op) + " " + PrintLiteral(right)
    case And(operands) => PrintAtoms(operands)
    case Or(operands) => PrintOperands(operands)
  }

  function PrintAtom(e: Expr): string
    decreases e, 1
  {
    if e.Comparison? then Print(e) else Parens(Print(e))
  }

  function PrintAtoms(es: seq<Expr>): string
    decreases es, 0
  {
    if es == [] then ""
    else if |es| == 1 then PrintAtom(es[0])
    else PrintAtom(es[0]) + " && " + PrintAtoms(es[1..])
  }

  function PrintOperand(e: Expr): string
    decreases e, 1
  {
    if e.Or? then Parens(Print(e)) else Print(e)
  }

  function PrintOperands(es: seq<Expr>): string
    decreases es, 0
  {
    if es == [] then ""
    else if |es| == 1 then PrintOperand(es[0])
    else PrintOperand(es[0]) + " || " + PrintOperands(es[1..])
  }

  // ---- The trees that can be written down

  predicate IsIdentifier(s: string) {
    s != "" && IsIdentifierStart(s[0]) && AllIn(s, IdentifierChars)
  }

  /** A decimal or hexadecimal numeral. */
  predicate IsNumeral(s: string) {
    (s != "" && AllIn(s, Digits)) || ("0x" <= s && AllIn(s[2..], HexDigits))
  }

  ghost predicate IsVersion2(v: string, a: string, b: string) {
    IsNumeral(a) && IsNumeral(b) && v == a + "." + b
  }

  ghost predicate IsVersion3(v: string, a: string, b: string, c: string) {
    IsNumeral(a) && IsNumeral(b) && IsNumeral(c) && v == a + "." + b + "." + c
  }

  ghost predicate IsVersion(v: string) {
    (exists a, b :: IsVersion2(v, a, b)) || (exists a, b, c :: IsVersion3(v, a, b, c))
  }

  /** Identifiers and literals are well-formed, and `And` and `Or` have at least two operands. */
  ghost predicate Printable(e: Expr) {
    match e
    case Comparison(left, op, right) => IsIdentifier(left) && (right.Version? ==> IsVersion(right.text))
    case And(operands) => |operands| >= 2 && forall i | 0 <= i < |operands| :: Printable(operands[i])
    case Or(operands) => |operands| >= 2 && forall i | 0 <= i < |operands| :: Printable(operands[i])
  }

  // ---- Derivations do not depend on where the tokens stand

  ghost predicate SameTokens(ts: Toks, i: nat, us: Toks, k: nat, n: nat) {
    i + n <= |ts| && k + n <= |us| && forall j | i <= j < i + n :: ts[j] == us[j - i + k]
  }

  lemma {:induction false} ShiftAtom(ts: Toks, i: nat, us: Toks, k: nat, n: nat, e: Expr)
    requires SameTokens(ts, i, us, k, n) && DerivesAtom(ts, i, i + n, e)
    ensures DerivesAtom(us, k, k + n, e)
    decreases n, 0
  {
    hide DerivesExpr;
    if IsComparison(ts, i, i + n, e) {
      ShiftComparison(ts, i, us, k, n, e);
    } else {
      assert SameTokens(ts, i + 1, us, k + 1, n - 2);
      ShiftExpr(ts, i + 1, us, k + 1, n - 2, e);
    }
  }

  lemma ShiftComparison(ts: Toks, i: nat, us: Toks, k: nat, n: nat, e: Expr)
    requires SameTokens(ts, i, us, k, n) && IsComparison(ts, i, i + n, e)
    ensures IsComparison(us, k, k + n, e)
  {
  }

  lemma SplitSame(ts: Toks, i: nat, us: Toks, k: nat, n: nat, m: nat)
    requires SameTokens(ts, i, us, k, n) && m < n
    ensures SameTokens(ts, i, us, k, m) && ts[i + m] == us[k + m]
    ensures SameTokens(ts, i + m + 1, us, k + m + 1, n - m - 1)
  {
  }

  lemma {:induction false} ShiftAtoms(ts: Toks, i: nat, us: Toks, k: nat, n: nat, es: seq<Expr>)
    requires SameTokens(ts, i, us, k, n) && DerivesAtoms(ts, i, i + n, es)
    ensures DerivesAtoms(us, k, k + n, es)
    decreases n, 1
  {
    hide DerivesAtom;
    if |es| == 1 {
      ShiftAtom(ts, i, us, k, n, es[0]);
    } else {
      var j :| i < j < i + n && DerivesAtom(ts, i, j, es[0]) && Is(ts, j, AmpAmp)
               && DerivesAtoms(ts, j + 1, i + n, es[1..]);
      var m := j - i;
      SplitSame(ts, i, us, k, n, m);
      ShiftAtom(ts, i, us, k, m, es[0]);
      ShiftAtoms(ts, j + 1, us, k + m + 1, n - m - 1, es[1..]);
      assert k < k + m < k + n;
    }
  }

  lemma {:induction false} ShiftOperand(ts: Toks, i: nat, us: Toks, k: nat, n: nat, e: Expr)
    requires SameTokens(ts, i, us, k, n) && DerivesOperand(ts, i, i + n, e)
    ensures DerivesOperand(us, k, k + n, e)
    decreases n, 2
  {
    hide DerivesAtom, DerivesAtoms;
    if DerivesAtom(ts, i, i + n, e) {
      ShiftAtom(ts, i, us, k, n, e);
    } else {
      ShiftAtoms(ts, i, us, k, n, e.operands);
    }
  }

  lemma {:induction false} ShiftOperands(ts: Toks, i: nat, us: Toks, k: nat, n: nat, es: seq<Expr>)
    requires SameTokens(ts, i, us, k, n) && DerivesOperands(ts, i, i + n, es)
    ensures DerivesOperands(us, k, k + n, es)
    decreases n, 3
  {
    hide DerivesOperand;
    if |es| == 1 {
      ShiftOperand(ts, i, us, k, n, es[0]);
    } else {
      var j :| i < j < i + n && DerivesOperand(ts, i, j, es[0]) && Is(ts, j, BarBar)
               && DerivesOperands(ts, j + 1, i + n, es[1..]);
      var m := j - i;
      SplitSame(ts, i, us, k, n, m);
      ShiftOperand(ts, i, us, k, m, es[0]);
      ShiftOperands(ts, j + 1, us, k + m + 1, n - m - 1, es[1..]);
      assert k < k + m < k + n;
    }
  }

  lemma {:induction false} ShiftExpr(ts: Toks, i: nat, us: Toks, k: nat, n: nat, e: Expr)
    requires SameTokens(ts, i, us, k, n) && DerivesExpr(ts, i, i + n, e)
    ensures DerivesExpr(us, k, k + n, e)
    decreases n, 4
  {
    hide DerivesOperand, DerivesOperands;
    if DerivesOperand(ts, i, i + n, e) {
      ShiftOperand(ts, i, us, k, n, e);
    } else {
      ShiftOperands(ts, i, us, k, n, e.operands);
    }
  }

  // ---- Derivations are not empty

  lemma AtomBounds(ts: Toks, i: nat, j: nat, e: Expr)
    requires DerivesAtom(ts, i, j, e)
    ensures i < j <= |ts|
  {
  }

  lemma {:induction false} AtomsBounds(ts: Toks, i: nat, j: nat, es: seq<Expr>)
    requires DerivesAtoms(ts, i, j, es)
    ensures i < j <= |ts|
    decreases |es|
  {
    hide DerivesAtom;
    if |es| == 1 {
      AtomBounds(ts, i, j, es[0]);
    } else {
      var k :| i < k < j && DerivesAtom(ts, i, k, es[0]) && Is(ts, k, AmpAmp) && DerivesAtoms(ts, k + 1, j, es[1..]);
      AtomsBounds(ts, k + 1, j, es[1..]);
    }
  }

  lemma OperandBounds(ts: Toks, i: nat, j: nat, e: Expr)
    requires DerivesOperand(ts, i, j, e)
    ensures i < j <= |ts|
  {
    hide DerivesAtom, DerivesAtoms;
    if DerivesAtom(ts, i, j, e) {
      AtomBounds(ts, i, j, e);
    } else {
      AtomsBounds(ts, i, j, e.operands);
    }
  }

  lemma {:induction false} OperandsBounds(ts: Toks, i: nat, j: nat, es: seq<Expr>)
    requires DerivesOperands(ts, i, j, es)
    ensures i < j <= |ts|
    decreases |es|
  {
    hide DerivesOperand;
    if |es| == 1 {
      OperandBounds(ts, i, j, es[0]);
    } else {
      var k :| i < k < j && DerivesOperand(ts, i, k, es[0]) && Is(ts, k, BarBar)
               && DerivesOperands(ts, k + 1, j, es[1..]);
      OperandsBounds(ts, k + 1, j, es[1..]);
    }
  }

  // ---- Tokenizing one lexeme

  /** The text after a lexeme does not continue it. */
  predicate Delimited(rest: string) {
    rest == "" || rest[0] == ' ' || rest[0] == ')'
  }

  predicate DelimitedNumeral(rest: string) {
    Delimited(rest) || rest[0] == '.'
  }

  lemma LexIdentifier(s: string, rest: string, at: nat)
    requires IsIdentifier(s) && Delimited(rest)
    ensures Lex(s + rest, at) == Prepend([Token(at, Identifier, s)], Lex(rest, at + |s|))
  {
    RunOf(s, rest, IdentifierChars);
    assert (s + rest)[0] == s[0];
    assert LexWord(s + rest) == Emit(|s|, Identifier, s) by {
      assert (s + rest)[..|s|] == s;
    }
    assert (s + rest)[|s|..] == rest;
  }

  lemma HexWord(s: string, rest: string)
    requires "0x" <= s && AllIn(s[2..], HexDigits) && DelimitedNumeral(rest)
    ensures LexWord(s + rest) == Emit(|s|, NumberLiteral, s)
  {
    hide Run;
    var t := s + rest;
    RunOf(s[2..], rest, HexDigits);
    assert t[2..] == s[2..] + rest;
    assert t[0] == '0' && t[1] == 'x' && t[..|s|] == s;
  }

  lemma DecimalWord(s: string, rest: string)
    requires s != "" && AllIn(s, Digits) && DelimitedNumeral(rest)
    ensures LexWord(s + rest) == Emit(|s|, NumberLiteral, s)
  {
    hide Run;
    var t := s + rest;
    RunOf(s, rest, Digits);
    assert t[0] == s[0] && InClass(s[0], Digits) && t[..|s|] == s;
    assert |s| > 1 ==> t[1] == s[1] && InClass(s[1], Digits);
    assert |s| == 1 && rest != "" ==> t[1] == rest[0];
  }

  lemma LexNumeral(s: string, rest: string, at: nat)
    requires IsNumeral(s) && DelimitedNumeral(rest)
    ensures Lex(s + rest, at) == Prepend([Token(at, NumberLiteral, s)], Lex(rest, at + |s|))
  {
    hide LexWord, IsSpace, Run;
    var t := s + rest;
    assert t[0] == s[0];
    if "0x" <= s {
      HexWord(s, rest);
    } else {
      DecimalWord(s, rest);
    }
    assert t[|s|..] == rest;
  }

  /** Skipping one blank. */
  lemma LexBlank(rest: string, at: nat)
    ensures Lex(" " + rest, at) == Lex(rest, at + 1)
  {
  }

  lemma LexDot(rest: string, at: nat)
    ensures Lex("." + rest, at) == Prepend([Token(at, Dot, "")], Lex(rest, at + 1))
  {
  }

  lemma LexLeftParen(rest: string, at: nat)
    ensures Lex("(" + rest, at) == Prepend([Token(at, LeftParen, "")], Lex(rest, at + 1))
  {
  }

  lemma LexRightParen(rest: string, at: nat)
    ensures Lex(")" + rest, at) == Prepend([Token(at, RightParen, "")], Lex(rest, at + 1))
  {
  }

  lemma LexAnd(rest: string, at: nat)
    ensures Lex(" && " + rest, at) == Prepend([Token(at + 1, AmpAmp, "")], Lex(rest, at + 4))
  {
    assert " && " + rest == " " + ("&&" + (" " + rest));
    LexBlank("&&" + (" " + rest), at);
    assert ("&&" + (" " + rest))[2..] == " " + rest;
    LexBlank(rest, at + 3);
  }

  lemma LexOr(rest: string, at: nat)
    ensures Lex(" || " + rest, at) == Prepend([Token(at + 1, BarBar, "")], Lex(rest, at + 4))
  {
    assert " || " + rest == " " + ("||" + (" " + rest));
    LexBlank("||" + (" " + rest), at);
    assert ("||" + (" " + rest))[2..] == " " + rest;
    LexBlank(rest, at + 3);
  }

  lemma LexOperator(op: Operator, rest: string, at: nat)
    requires rest != "" && rest[0] == ' '
    ensures Lex(OperatorText(op) + rest, at)
            == Prepend([Token(at, OperatorToken(op), "")], Lex(rest, at + |OperatorText(op)|))
  {
    var s := OperatorText(op) + rest;
    assert s[|OperatorText(op)|..] == rest;
    assert s[0] == OperatorText(op)[0];
    assert |OperatorText(op)| == 1 ==> s[1] == ' ';
  }

  // ---- Tokenizing a whole tree

  /** The tokens of `s`, in front of any text that does not continue it, are `ts`. */
  ghost predicate LexesTo(s: string, rest: string, at: nat, ts: Toks) {
    Lex(s + rest, at) == Prepend(ts, Lex(rest, at + |s|))
  }

  lemma LexConcat(s: string, mid: string, rest: string, at: nat, a: Toks, b: Toks)
    requires LexesTo(s, mid + rest, at, a) && LexesTo(mid, rest, at + |s|, b)
    ensures LexesTo(s + mid, rest, at, a + b)
  {
    hide Lex;
    assert (s + mid) + rest == s + (mid + rest);
    PrependTwice(a, b, Lex(rest, at + |s| + |mid|));
  }

  lemma DecimalIsNumeral(n: nat)
    ensures IsNumeral(Decimal(n)) && ParseInt(Decimal(n)) == Int(n)
  {
  }

  lemma LexVersion2(v: string, a: string, b: string, rest: string, at: nat) returns (ts: Toks)
    requires IsVersion2(v, a, b) && Delimited(rest)
    ensures LexesTo(v, rest, at, ts) && IsLiteral(ts, 0, |ts|, Version(v))
  {
    hide Lex, IsNumeral;
    LexNumeral(a, "." + (b + rest), at);
    LexDot(b + rest, at + |a|);
    LexNumeral(b, rest, at + |a| + 1);
    LexConcat(".", b, rest, at + |a|, [Token(at + |a|, Dot, "")], [Token(at + |a| + 1, NumberLiteral, b)]);
    assert "." + (b + rest) == ("." + b) + rest;
    var t0, t1, t2 := Token(at, NumberLiteral, a), Token(at + |a|, Dot, ""), Token(at + |a| + 1, NumberLiteral, b);
    LexConcat(a, "." + b, rest, at, [t0], [t1] + [t2]);
    ts := [t0] + ([t1] + [t2]);
    assert a + ("." + b) == v;
  }

  lemma LexVersion3(v: string, a: string, b: string, c: string, rest: string, at: nat) returns (ts: Toks)
    requires IsVersion3(v, a, b, c) && Delimited(rest)
    ensures LexesTo(v, rest, at, ts) && IsLiteral(ts, 0, |ts|, Version(v))
  {
    hide Lex, IsNumeral;
    var p1, p2, p3, p4 := at + |a|, at + |a| + 1, at + |a| + 1 + |b|, at + |a| + 1 + |b| + 1;
    var t := [Token(at, NumberLiteral, a), Token(p1, Dot, ""), Token(p2, NumberLiteral, b), Token(p3, Dot, ""),
              Token(p4, NumberLiteral, c)];
    LexNumeral(c, rest, p4);
    LexDot(c + rest, p3);
    LexConcat(".", c, rest, p3, [t[3]], [t[4]]);
    LexNumeral(b, ("." + c) + rest, p2);
    LexConcat(b, "." + c, rest, p2, [t[2]], [t[3]] + [t[4]]);
    LexDot((b + ("." + c)) + rest, p1);
    LexConcat(".", b + ("." + c), rest, p1, [t[1]], [t[2]] + ([t[3]] + [t[4]]));
    LexNumeral(a, ("." + (b + ("." + c))) + rest, at);
    LexConcat(a, "." + (b + ("." + c)), rest, at, [t[0]], [t[1]] + ([t[2]] + ([t[3]] + [t[4]])));
    assert a + ("." + (b + ("." + c))) == v;
    ts := [t[0]] + ([t[1]] + ([t[2]] + ([t[3]] + [t[4]])));
  }

  lemma LexNumber(s: string, rest: string, at: nat) returns (ts: Toks)
    requires IsNumeral(s) && Delimited(rest)
    ensures LexesTo(s, rest, at, ts) && IsLiteral(ts, 0, |ts|, NumberValue(ParseInt(s)))
  {
    hide Lex, IsNumeral, ParseInt;
    LexNumeral(s, rest, at);
    ts := [Token(at, NumberLiteral, s)];
  }

  lemma LexLiteral(r: Literal, rest: string, at: nat) returns (ts: Toks)
    requires (r.Version? ==> IsVersion(r.text)) && Delimited(rest)
    ensures LexesTo(PrintLiteral(r), rest, at, ts) && IsLiteral(ts, 0, |ts|, r)
  {
    hide Lex, IsNumeral, ParseInt, LexesTo, IsLiteral, Decimal;
    match r
    case NumberValue(Int(n)) =>
      DecimalIsNumeral(n);
      ts := LexNumber(Decimal(n), rest, at);
    case NumberValue(NaN) =>
      NaNIsNumeral();
      ts := LexNumber("0x", rest, at);
    case Version(v) =>
      if a, b :| IsVersion2(v, a, b) {
        ts := LexVersion2(v, a, b, rest, at);
      } else {
        var a, b, c :| IsVersion3(v, a, b, c);
        ts := LexVersion3(v, a, b, c, rest, at);
      }
  }

  lemma NaNIsNumeral()
    ensures IsNumeral("0x") && ParseInt("0x") == NaN
  {
  }

  lemma LexComparison(e: Expr, rest: string, at: nat) returns (ts: Toks)
    requires e.Comparison? && Printable(e) && Delimited(rest)
    ensures LexesTo(Print(e), rest, at, ts) && IsComparison(ts, 0, |ts|, e)
  {
    hide Lex, IsVersion, IsIdentifier, OperatorText, PrintLiteral;
    var left, op, lit := e.left, OperatorText(e.op), PrintLiteral(e.right);
    var p1 := at + |left|;
    var p2 := p1 + 1;
    var p3 := p2 + |op|;
    var right := LexLiteral(e.right, rest, p3 + 1);
    LexBlank(lit + rest, p3);
    LexConcat(" ", lit, rest, p3, [], right);
    LexOperator(e.op, (" " + lit) + rest, p2);
    var o, l := [Token(p2, OperatorToken(e.op), "")], [Token(at, Identifier, left)];
    LexConcat(op, " " + lit, rest, p2, o, [] + right);
    LexBlank((op + (" " + lit)) + rest, p1);
    LexConcat(" ", op + (" " + lit), rest, p1, [], o + ([] + right));
    LexIdentifier(left, (" " + (op + (" " + lit))) + rest, at);
    LexConcat(left, " " + (op + (" " + lit)), rest, at, l, [] + (o + ([] + right)));
    assert left + (" " + (op + (" " + lit))) == Print(e);
    ts := l + ([] + (o + ([] + right)));
    assert ts == l + o + right;
    LiteralInComparison(l + o, right, e.right);
  }

  lemma LiteralInComparison(front: Toks, right: Toks, r: Literal)
    requires |front| == 2 && IsLiteral(right, 0, |right|, r)
    ensures IsLiteral(front + right, 2, |front + right|, r)
  {
  }

  lemma {:induction false} LexAtom(e: Expr, rest: string, at: nat) returns (ts: Toks)
    requires Printable(e) && Delimited(rest)
    ensures LexesTo(PrintAtom(e), rest, at, ts) && DerivesAtom(ts, 0, |ts|, e)
    decreases e, 2
  {
    hide Lex, IsComparison, Print, Printable;
    if e.Comparison? {
      ts := LexComparison(e, rest, at);
    } else {
      ts := LexParens(e, rest, at);
    }
  }

  lemma {:induction false} LexParens(e: Expr, rest: string, at: nat) returns (ts: Toks)
    requires Printable(e) && Delimited(rest)
    ensures LexesTo(Parens(Print(e)), rest, at, ts) && DerivesAtom(ts, 0, |ts|, e)
    decreases e, 1
  {
    hide Lex, Print, Printable, IsComparison, DerivesExpr;
    var p := Print(e);
    var inner := LexTree(e, ")" + rest, at + 1);
    LexRightParen(rest, at + 1 + |p|);
    var close, open := [Token(at + 1 + |p|, RightParen, "")], [Token(at, LeftParen, "")];
    LexConcat(p, ")", rest, at + 1, inner, close);
    LexLeftParen((p + ")") + rest, at);
    LexConcat("(", p + ")", rest, at, open, inner + close);
    assert "(" + (p + ")") == Parens(p);
    ts := open + (inner + close);
    assert SameTokens(inner, 0, ts, 1, |inner|);
    ShiftExpr(inner, 0, ts, 1, |inner|, e);
  }

  lemma {:induction false} LexAtoms(es: seq<Expr>, rest: string, at: nat) returns (ts: Toks)
    requires es != [] && (forall i | 0 <= i < |es| :: Printable(es[i])) && Delimited(rest)
    ensures LexesTo(PrintAtoms(es), rest, at, ts) && DerivesAtoms(ts, 0, |ts|, es)
    decreases es, 0
  {
    hide Lex, Printable, DerivesAtom, PrintAtom;
    if |es| == 1 {
      ts := LexAtom(es[0], rest, at);
    } else {
      var p, q := PrintAtom(es[0]), PrintAtoms(es[1..]);
      var front := LexAtom(es[0], (" && " + q) + rest, at);
      var back := LexAtoms(es[1..], rest, at + |p| + 4);
      LexAnd(q + rest, at + |p|);
      var amp := [Token(at + |p| + 1, AmpAmp, "")];
      LexConcat(" && ", q, rest, at + |p|, amp, back);
      LexConcat(p, " && " + q, rest, at, front, amp + back);
      assert p + (" && " + q) == PrintAtoms(es);
      ts := front + (amp + back);
      JoinAtoms(front, amp, back, es);
    }
  }

  lemma JoinAtoms(front: Toks, amp: Toks, back: Toks, es: seq<Expr>)
    requires |es| > 1 && |amp| == 1 && amp[0].kind == AmpAmp
    requires DerivesAtom(front, 0, |front|, es[0]) && DerivesAtoms(back, 0, |back|, es[1..])
    ensures DerivesAtoms(front + (amp + back), 0, |front + (amp + back)|, es)
  {
    hide DerivesAtom;
    var ts, k := front + (amp + back), |front|;
    AtomBounds(front, 0, k, es[0]);
    AtomsBounds(back, 0, |back|, es[1..]);
    assert SameTokens(front, 0, ts, 0, k);
    assert SameTokens(back, 0, ts, k + 1, |back|);
    ShiftAtom(front, 0, ts, 0, k, es[0]);
    ShiftAtoms(back, 0, ts, k + 1, |back|, es[1..]);
    assert ts[k] == amp[0];
  }

  lemma {:induction false} LexOperand(e: Expr, rest: string, at: nat) returns (ts: Toks)
    requires Printable(e) && Delimited(rest)
    ensures LexesTo(PrintOperand(e), rest, at, ts) && DerivesOperand(ts, 0, |ts|, e)
    decreases e, 3
  {
    hide Lex, DerivesAtom, DerivesAtoms;
    match e
    case Comparison(_, _, _) => ts := LexAtom(e, rest, at);
    case And(operands) => ts := LexAtoms(operands, rest, at);
    case Or(_) => ts := LexParens(e, rest, at);
  }

  lemma {:induction false} LexOperands(es: seq<Expr>, rest: string, at: nat) returns (ts: Toks)
    requires es != [] && (forall i | 0 <= i < |es| :: Printable(es[i])) && Delimited(rest)
    ensures LexesTo(PrintOperands(es), rest, at, ts) && DerivesOperands(ts, 0, |ts|, es)
    decreases es, 0
  {
    hide Lex, Printable, DerivesOperand, PrintOperand;
    if |es| == 1 {
      ts := LexOperand(es[0], rest, at);
    } else {
      var p, q := PrintOperand(es[0]), PrintOperands(es[1..]);
      var front := LexOperand(es[0], (" || " + q) + rest, at);
      var back := LexOperands(es[1..], rest, at + |p| + 4);
      LexOr(q + rest, at + |p|);
      var bar := [Token(at + |p| + 1, BarBar, "")];
      LexConcat(" || ", q, rest, at + |p|, bar, back);
      LexConcat(p, " || " + q, rest, at, front, bar + back);
      assert p + (" || " + q) == PrintOperands(es);
      ts := front + (bar + back);
      JoinOperands(front, bar, back, es);
    }
  }

  lemma JoinOperands(front: Toks, bar: Toks, back: Toks, es: seq<Expr>)
    requires |es| > 1 && |bar| == 1 && bar[0].kind == BarBar
    requires DerivesOperand(front, 0, |front|, es[0]) && DerivesOperands(back, 0, |back|, es[1..])
    ensures DerivesOperands(front + (bar + back), 0, |front + (bar + back)|, es)
  {
    hide DerivesOperand;
    var ts, k := front + (bar + back), |front|;
    OperandBounds(front, 0, k, es[0]);
    OperandsBounds(back, 0, |back|, es[1..]);
    assert SameTokens(front, 0, ts, 0, k);
    assert SameTokens(back, 0, ts, k + 1, |back|);
    ShiftOperand(front, 0, ts, 0, k, es[0]);
    ShiftOperands(back, 0, ts, k + 1, |back|, es[1..]);
    assert ts[k] == bar[0];
  }

  /** The printed tree tokenizes to tokens that derive the tree. */
  lemma {:induction false} LexTree(e: Expr, rest: string, at: nat) returns (ts: Toks)
    requires Printable(e) && Delimited(rest)
    ensures LexesTo(Print(e), rest, at, ts) && DerivesExpr(ts, 0, |ts|, e)
    decreases e, 0
  {
    hide Lex, DerivesOperands;
    match e
    case Or(operands) => ts := LexOperands(operands, rest, at);
    case Comparison(_, _, _) =>
      hide DerivesAtom;
      ts := LexComparisonOperand(e, rest, at);
    case And(operands) =>
      hide DerivesAtom, DerivesAtoms;
      ts := LexAtoms(operands, rest, at);
  }

  lemma LexComparisonOperand(e: Expr, rest: string, at: nat) returns (ts: Toks)
    requires e.Comparison? && Printable(e) && Delimited(rest)
    ensures LexesTo(Print(e), rest, at, ts) && DerivesOperand(ts, 0, |ts|, e)
  {
    hide Lex, IsComparison, Print, Printable;
    ts := LexComparison(e, rest, at);
  }

  /** Round trip: tokenizing and parsing the rendering of a tree gives exactly that tree. */
  lemma PrintThenParse(e: Expr)
    requires Printable(e)
    ensures ParseString(Print(e)) == Tree(e)
  {
    hide Lex, Print, Printable, DerivesExpr, ParseTokens;
    var ts := LexTree(e, "", 0);
    assert Print(e) + "" == Print(e);
    LexNothing(|Print(e)|);
    assert ts + [] == ts;
    ParserDecidesGrammar(ts);
  }

  lemma LexNothing(at: nat)
    ensures Lex("", at) == Tokens([])
  {
  }
}
