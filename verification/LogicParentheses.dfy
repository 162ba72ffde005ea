/** The printer writes as few parentheses as possible: no text that parses to the same tree has fewer. */
module LogicParentheses {
  import opened LogicParser
  import opened LogicPrinter
  import opened LogicTokenizer
  import opened Text

  function Count<T>(s: seq<T>, p: T -> bool): nat {
    if s == [] then 0 else (if p(s[0]) then 1 else 0) + Count(s[1..], p)
  }

  lemma {:induction false} CountConcat<T>(s: seq<T>, t: seq<T>, p: T -> bool)
    ensures Count(s + t, p) == Count(s, p) + Count(t, p)
  {
    if s == [] {
      assert s + t == t;
    } else {
      assert (s + t)[1..] == s[1..] + t;
      CountConcat(s[1..], t, p);
    }
  }

  lemma {:induction false} CountNone<T>(s: seq<T>, p: T -> bool)
    requires forall i | 0 <= i < |s| :: !p(s[i])
    ensures Count(s, p) == 0
  {
    if s != [] {
      CountNone(s[1..], p);
    }
  }

  predicate IsParen(c: char) {
    c == '('
  }

  predicate IsLeftParen(t: Token) {
    t.kind.LeftParen?
  }

  /** The pairs of parentheses in a text, counted by their left halves. */
  function Parentheses(s: string): nat {
    Count(s, IsParen)
  }

  function LeftParens(ts: Toks): nat {
    Count(ts, IsLeftParen)
  }

  // ---- How many pairs a tree needs

  function Needed(e: Expr): nat
    decreases e, 0
  {
    match e
    case Comparison(_, _, _) => 0
    case And(operands) => NeededByAtoms(operands)
    case Or(operands) => NeededByOperands(operands)
  }

  function NeededByAtom(e: Expr): nat
    decreases e, 1
  {
    if e.Comparison? then 0 else 1 + Needed(e)
  }

  function NeededByAtoms(es: seq<Expr>): nat
    decreases es, 0
  {
    if es == [] then 0 else NeededByAtom(es[0]) + NeededByAtoms(es[1..])
  }

  function NeededByOperand(e: Expr): nat
    decreases e, 1
  {
    if e.Or? then 1 + Needed(e) else Needed(e)
  }

  function NeededByOperands(es: seq<Expr>): nat
    decreases es, 0
  {
    if es == [] then 0 else NeededByOperand(es[0]) + NeededByOperands(es[1..])
  }

  // ---- Every derivation has at least that many

  lemma SplitCount(ts: Toks, i: nat, k: nat, j: nat)
    requires i <= k < j <= |ts|
    ensures LeftParens(ts[i..j])
            == LeftParens(ts[i..k]) + (if IsLeftParen(ts[k]) then 1 else 0) + LeftParens(ts[k + 1..j])
  {
    assert ts[i..j] == ts[i..k] + ts[k..j];
    CountConcat(ts[i..k], ts[k..j], IsLeftParen);
    assert ts[k..j][1..] == ts[k + 1..j];
  }

  lemma {:induction false} AtomNeeds(ts: Toks, i: nat, j: nat, e: Expr)
    requires DerivesAtom(ts, i, j, e)
    ensures i < j <= |ts| && LeftParens(ts[i..j]) >= NeededByAtom(e)
    decreases if i <= j then j - i else 0, 0
  {
    hide DerivesExpr, Count;
    if !IsComparison(ts, i, j, e) {
      ExprNeeds(ts, i + 1, j - 1, e);
      SplitCount(ts, i, i, j);
      SplitCount(ts, i + 1, j - 1, j);
    }
  }

  lemma {:induction false} AtomsNeed(ts: Toks, i: nat, j: nat, es: seq<Expr>)
    requires DerivesAtoms(ts, i, j, es)
    ensures i < j <= |ts| && LeftParens(ts[i..j]) >= NeededByAtoms(es)
    decreases if i <= j then j - i else 0, 1
  {
    hide DerivesAtom, Count, NeededByAtom;
    if |es| == 1 {
      AtomNeeds(ts, i, j, es[0]);
      assert es[1..] == [];
    } else {
      var k :| i < k < j && DerivesAtom(ts, i, k, es[0]) && Is(ts, k, AmpAmp) && DerivesAtoms(ts, k + 1, j, es[1..]);
      AtomNeeds(ts, i, k, es[0]);
      AtomsNeed(ts, k + 1, j, es[1..]);
      SplitCount(ts, i, k, j);
    }
  }

  lemma {:induction false} OperandNeeds(ts: Toks, i: nat, j: nat, e: Expr)
    requires DerivesOperand(ts, i, j, e)
    ensures i < j <= |ts| && LeftParens(ts[i..j]) >= NeededByOperand(e)
    decreases if i <= j then j - i else 0, 2
  {
    hide DerivesAtom, DerivesAtoms, Count;
    if DerivesAtom(ts, i, j, e) {
      AtomNeeds(ts, i, j, e);
    } else {
      AtomsNeed(ts, i, j, e.operands);
    }
  }

  lemma {:induction false} OperandsNeed(ts: Toks, i: nat, j: nat, es: seq<Expr>)
    requires DerivesOperands(ts, i, j, es)
    ensures i < j <= |ts| && LeftParens(ts[i..j]) >= NeededByOperands(es)
    decreases if i <= j then j - i else 0, 3
  {
    hide DerivesOperand, Count, NeededByOperand;
    if |es| == 1 {
      OperandNeeds(ts, i, j, es[0]);
      assert es[1..] == [];
    } else {
      var k :| i < k < j && DerivesOperand(ts, i, k, es[0]) && Is(ts, k, BarBar)
               && DerivesOperands(ts, k + 1, j, es[1..]);
      OperandNeeds(ts, i, k, es[0]);
      OperandsNeed(ts, k + 1, j, es[1..]);
      SplitCount(ts, i, k, j);
    }
  }

  lemma {:induction false} ExprNeeds(ts: Toks, i: nat, j: nat, e: Expr)
    requires DerivesExpr(ts, i, j, e)
    ensures i < j <= |ts| && LeftParens(ts[i..j]) >= Needed(e)
    decreases if i <= j then j - i else 0, 4
  {
    hide DerivesOperand, DerivesOperands, Count;
    if DerivesOperand(ts, i, j, e) {
      OperandNeeds(ts, i, j, e);
    } else {
      OperandsNeed(ts, i, j, e.operands);
    }
  }

  // ---- The tokens of a text have no more than the text

  lemma {:induction false} LexAddsNone(s: string, at: nat)
    requires Lex(s, at).Tokens?
    ensures LeftParens(Lex(s, at).tokens) <= Parentheses(s)
    decreases |s|
  {
    hide LexStep, Count;
    if s == "" {
      CountEmpty();
    } else {
      StepCounts(s);
      match LexStep(s)
      case Skip(n) =>
        LexAddsNone(s[n..], at + n);
      case Emit(n, kind, value) =>
        LexAddsNone(s[n..], at + n);
        CountConcat([Token(at, kind, value)], Lex(s[n..], at + n).tokens, IsLeftParen);
        CountOne(Token(at, kind, value));
    }
  }

  lemma CountEmpty()
    ensures LeftParens([]) == 0 && Parentheses("") == 0
  {
  }

  lemma CountOne(t: Token)
    ensures LeftParens([t]) == if t.kind.LeftParen? then 1 else 0
  {
    assert Count([t][1..], IsLeftParen) == 0;
  }

  /** A token for a left parenthesis uses one up. */
  lemma StepCounts(s: string)
    requires s != ""
    ensures LexStep(s).Skip? ==> Parentheses(s[LexStep(s).length..]) <= Parentheses(s)
    ensures LexStep(s).Emit? ==>
              Parentheses(s[LexStep(s).length..]) + (if LexStep(s).kind.LeftParen? then 1 else 0) <= Parentheses(s)
  {
    hide Count, LexStep;
    LeftParenIsOne(s);
    if !LexStep(s).Stuck? {
      var n := LexStep(s).length;
      CountConcat(s[..n], s[n..], IsParen);
      assert s[..n] + s[n..] == s;
    }
  }

  lemma LeftParenIsOne(s: string)
    requires s != ""
    ensures LexStep(s).Emit? && LexStep(s).kind.LeftParen? ==>
              LexStep(s).length == 1 && Parentheses(s[..LexStep(s).length]) == 1
  {
    assert Count(s[..1][1..], IsParen) == 0;
  }

  // ---- The printer writes exactly what is needed

  lemma NoParens(s: string)
    requires forall i | 0 <= i < |s| :: s[i] != '('
    ensures Parentheses(s) == 0
  {
    CountNone(s, IsParen);
  }

  lemma {:induction false} PrintCounts(e: Expr)
    requires Printable(e)
    ensures Parentheses(Print(e)) == Needed(e)
    decreases e, 0
  {
    match e
    case Comparison(_, _, _) =>
      hide Count;
      ComparisonHasNone(e);
    case And(operands) =>
      hide Count;
      AtomsCount(operands);
    case Or(operands) =>
      hide Count;
      OperandsCount(operands);
  }

  lemma ComparisonHasNone(e: Expr)
    requires e.Comparison? && Printable(e)
    ensures Parentheses(Print(e)) == 0
  {
    hide Count, PrintLiteral, OperatorText, IsVersion;
    LiteralHasNone(e.right);
    OperatorHasNone(e.op);
    var left, op, right := e.left, OperatorText(e.op), PrintLiteral(e.right);
    assert forall i | 0 <= i < |left| :: InClass(left[i], IdentifierChars);
    NoParens(Print(e));
  }

  lemma OperatorHasNone(op: Operator)
    ensures forall i | 0 <= i < |OperatorText(op)| :: OperatorText(op)[i] != '('
  {
  }

  lemma LiteralHasNone(r: Literal)
    requires r.Version? ==> IsVersion(r.text)
    ensures forall i | 0 <= i < |PrintLiteral(r)| :: PrintLiteral(r)[i] != '('
  {
    match r
    case NumberValue(Int(n)) =>
      var s := Decimal(n);
      assert forall i | 0 <= i < |s| :: IsDigit(s[i]);
    case NumberValue(NaN) =>
    case Version(v) =>
      hide IsNumeral;
      if a, b :| IsVersion2(v, a, b) {
        NumeralHasNone(a);
        NumeralHasNone(b);
      } else {
        var a, b, c :| IsVersion3(v, a, b, c);
        NumeralHasNone(a);
        NumeralHasNone(b);
        NumeralHasNone(c);
      }
  }

  lemma NumeralHasNone(s: string)
    requires IsNumeral(s)
    ensures forall i | 0 <= i < |s| :: s[i] != '('
  {
    if "0x" <= s {
      var digits := s[2..];
      assert forall i | 0 <= i < |digits| :: InClass(digits[i], HexDigits);
      assert forall i | 2 <= i < |s| :: s[i] == digits[i - 2];
    } else {
      assert forall i | 0 <= i < |s| :: InClass(s[i], Digits);
    }
  }

  lemma ParensCount(s: string)
    ensures Parentheses(Parens(s)) == 1 + Parentheses(s)
  {
    CountConcat("(", s + ")", IsParen);
    CountConcat(s, ")", IsParen);
    assert Parens(s) == "(" + (s + ")");
    assert "("[1..] == "" && ")"[1..] == "";
  }

  lemma JoinCount(s: string, mid: string, t: string)
    requires forall i | 0 <= i < |mid| :: mid[i] != '('
    ensures Parentheses(s + mid + t) == Parentheses(s) + Parentheses(t)
  {
    CountConcat(s + mid, t, IsParen);
    CountConcat(s, mid, IsParen);
    NoParens(mid);
  }

  lemma {:induction false} AtomsCount(es: seq<Expr>)
    requires forall i | 0 <= i < |es| :: Printable(es[i])
    ensures Parentheses(PrintAtoms(es)) == NeededByAtoms(es)
    decreases es, 0
  {
    hide Count, Printable, Print, Parens;
    if es == [] {
      CountEmpty();
    } else {
      PrintCounts(es[0]);
      ParensCount(Print(es[0]));
      AtomsCount(es[1..]);
      assert |es| == 1 ==> es[1..] == [];
      JoinCount(PrintAtom(es[0]), " && ", PrintAtoms(es[1..]));
    }
  }

  lemma {:induction false} OperandsCount(es: seq<Expr>)
    requires forall i | 0 <= i < |es| :: Printable(es[i])
    ensures Parentheses(PrintOperands(es)) == NeededByOperands(es)
    decreases es, 0
  {
    hide Count, Printable, Print, Parens, Needed;
    if es == [] {
      CountEmpty();
    } else {
      PrintCounts(es[0]);
      ParensCount(Print(es[0]));
      OperandsCount(es[1..]);
      assert |es| == 1 ==> es[1..] == [];
      JoinCount(PrintOperand(es[0]), " || ", PrintOperands(es[1..]));
    }
  }

  /** No text that parses to a tree has fewer pairs of parentheses than the tree's rendering, which itself parses to
      it (see `PrintThenParse`). */
  lemma FewestParentheses(e: Expr, text: string)
    requires Printable(e) && ParseString(text) == Tree(e)
    ensures Parentheses(Print(e)) <= Parentheses(text)
  {
    hide Lex, ParseTokens, DerivesExpr, Printable, Print, Count, Needed;
    var ts := Lex(text, 0).tokens;
    ParserDecidesGrammar(ts);
    ExprNeeds(ts, 0, |ts|, e);
    assert ts[0..|ts|] == ts;
    LexAddsNone(text, 0);
    PrintCounts(e);
  }
}
