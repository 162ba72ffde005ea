/** What single tokens mean: the tokenizer takes the longest one, numerals have their positional value, and the two
    spellings of equality and inequality parse to the same trees. */
module LogicTokens {
  import opened LogicParser
  import opened LogicTokenizer
  import opened Text
  import opened Wrappers

  // ---- The longest token

  /** How a token that is no number and no identifier is written. */
  function Sign(k: TokenKind): Option<string> {
    match k
    case Identifier => None
    case NumberLiteral => None
    case Dot => Some(".")
    case LeftParen => Some("(")
    case RightParen => Some(")")
    case BarBar => Some("||")
    case AmpAmp => Some("&&")
    case EqualsEquals => Some("==")
    case EqualsEqualsEquals => Some("===")
    case ExclamationEquals => Some("!=")
    case ExclamationEqualsEquals => Some("!==")
    case LessThan => Some("<")
    case LessThanEquals => Some("<=")
    case GreaterThan => Some(">")
    case GreaterThanEquals => Some(">=")
  }

  predicate IsDigits(t: string) {
    t != "" && forall i | 0 <= i < |t| :: '0' <= t[i] <= '9'
  }

  predicate IsHexNumeral(t: string) {
    "0x" <= t && forall i | 2 <= i < |t| :: '0' <= t[i] <= '9' || 'a' <= t[i] <= 'f' || 'A' <= t[i] <= 'F'
  }

  predicate IsName(t: string) {
    && t != "" && !('0' <= t[0] <= '9')
    && forall i | 0 <= i < |t| ::
         'a' <= t[i] <= 'z' || 'A' <= t[i] <= 'Z' || '0' <= t[i] <= '9' || t[i] == '_' || t[i] == '$'
  }

  /** The text `t` is a token of this kind, with this value. */
  predicate IsLexeme(t: string, k: TokenKind, value: string) {
    match k
    case Identifier => value == t && IsName(t)
    case NumberLiteral => value == t && (IsDigits(t) || IsHexNumeral(t))
    case _ => value == "" && Sign(k) == Some(t)
  }

  ghost predicate StartsWithLexeme(s: string, length: nat) {
    length <= |s| && exists k, value :: IsLexeme(s[..length], k, value)
  }

  /** Every lexeme that `s` starts with, by its first character. */
  lemma LexemesBySign(s: string, m: nat, k: TokenKind)
    requires 0 < m <= |s| && Sign(k) == Some(s[..m])
    ensures LexStep(s).Emit? && m <= LexStep(s).length
  {
    var t := s[..m];
    assert t[0] == s[0];
    assert m > 1 ==> t[1] == s[1];
    assert m > 2 ==> t[2] == s[2];
  }

  lemma LexemesByDigits(s: string, m: nat)
    requires 0 < m <= |s| && (IsDigits(s[..m]) || IsHexNumeral(s[..m]))
    ensures LexStep(s).Emit? && m <= LexStep(s).length
  {
    var t := s[..m];
    assert t[0] == s[0] && IsDigit(s[0]) && !IsSpace(s[0]);
    assert m > 1 ==> t[1] == s[1];
    if IsHexNumeral(t) {
      assert forall i | 0 <= i < m - 2 :: s[2..][i] == t[i + 2] && IsHexDigit(s[2..][i]);
    } else {
      assert forall i | 0 <= i < m :: s[i] == t[i] && IsDigit(s[i]);
    }
  }

  lemma LexemesByName(s: string, m: nat)
    requires 0 < m <= |s| && IsName(s[..m])
    ensures LexStep(s).Emit? && m <= LexStep(s).length
  {
    var t := s[..m];
    assert t[0] == s[0] && IsIdentifierStart(s[0]) && !IsSpace(s[0]);
    assert forall i | 0 <= i < m :: s[i] == t[i] && IsIdentifierChar(s[i]);
  }

  lemma EmittedIsLexeme(s: string)
    requires s != "" && LexStep(s).Emit?
    ensures var r := LexStep(s); IsLexeme(s[..r.length], r.kind, r.value)
  {
    var r := LexStep(s);
    var t := s[..r.length];
    if LexStep(s) == LexWord(s) && r.value != "" {
      if s[0] == '0' && At(s, 1, 'x') {
        assert forall i | 2 <= i < |t| :: t[i] == s[2..][..|t| - 2][i - 2];
        assert IsHexNumeral(t);
      }
    } else {
      assert t[0] == s[0] && (|t| > 1 ==> t[1] == s[1]) && (|t| > 2 ==> t[2] == s[2]);
      assert Sign(r.kind).Some? && Sign(r.kind).value == t;
    }
  }

  /** The white space and line terminators of ECMAScript. */
  const WHITE_SPACE := {
    '\t', '\n', '\U{b}', '\U{c}', '\r', ' ', '\U{a0}', '\U{1680}', '\U{2000}', '\U{2001}', '\U{2002}', '\U{2003}',
    '\U{2004}', '\U{2005}', '\U{2006}', '\U{2007}', '\U{2008}', '\U{2009}', '\U{200a}', '\U{2028}', '\U{2029}',
    '\U{202f}', '\U{205f}', '\U{3000}', '\U{feff}'}

  lemma SpaceIsWhite(c: char)
    ensures IsSpace(c) <==> c in WHITE_SPACE
  {
  }

  /** Each step of the tokenizer takes the longest token that the rest of the input starts with.  If it starts with
      none, white space and a lone bar, ampersand, equals sign or exclamation mark is skipped, and any other character
      is an error. */
  lemma LongestToken(s: string)
    requires s != ""
    ensures match LexStep(s)
            case Emit(n, k, value) =>
              n <= |s| && IsLexeme(s[..n], k, value) && forall m: nat | n < m :: !StartsWithLexeme(s, m)
            case Skip(n) =>
              n == 1 && (s[0] in WHITE_SPACE || s[0] == '|' || s[0] == '&' || s[0] == '=' || s[0] == '!')
              && forall m: nat :: !StartsWithLexeme(s, m)
            case Stuck =>
              s[0] !in WHITE_SPACE && s[0] != '|' && s[0] != '&' && s[0] != '=' && s[0] != '!'
              && forall m: nat :: !StartsWithLexeme(s, m)
  {
    if LexStep(s).Emit? {
      EmittedIsLexeme(s);
    }
    forall m: nat | StartsWithLexeme(s, m) ensures LexStep(s).Emit? && m <= LexStep(s).length {
      var k, value :| IsLexeme(s[..m], k, value);
      LexemeIsFound(s, m, k, value);
    }
    StepKinds(s);
    SpaceIsWhite(s[0]);
  }

  lemma StepKinds(s: string)
    requires s != ""
    ensures LexStep(s).Skip? ==> LexStep(s).length == 1
                                 && (IsSpace(s[0]) || s[0] == '|' || s[0] == '&' || s[0] == '=' || s[0] == '!')
    ensures LexStep(s).Stuck? ==> !IsSpace(s[0]) && s[0] != '|' && s[0] != '&' && s[0] != '=' && s[0] != '!'
  {
  }

  lemma LexemeIsFound(s: string, m: nat, k: TokenKind, value: string)
    requires s != "" && m <= |s| && IsLexeme(s[..m], k, value)
    ensures LexStep(s).Emit? && m <= LexStep(s).length
  {
    hide LexStep;
    if k == Identifier {
      LexemesByName(s, m);
    } else if k == NumberLiteral {
      LexemesByDigits(s, m);
    } else {
      LexemesBySign(s, m, k);
    }
  }

  // ---- Numerals

  function Power(base: nat, n: nat): nat {
    if n == 0 then 1 else base * Power(base, n - 1)
  }

  /** The value of digits, the first one being the most significant. */
  function Positional(ds: seq<nat>, base: nat): nat {
    if ds == [] then 0 else ds[0] * Power(base, |ds| - 1) + Positional(ds[1..], base)
  }

  lemma {:induction false} PositionalAppend(ds: seq<nat>, d: nat, base: nat)
    ensures Positional(ds + [d], base) == base * Positional(ds, base) + d
  {
    var all := ds + [d];
    if ds == [] {
      assert all[1..] == [] && all[0] == d;
      assert Positional(all, base) == d * Power(base, 0) + Positional([], base);
    } else {
      assert all[1..] == ds[1..] + [d];
      PositionalAppend(ds[1..], d, base);
      var p := Power(base, |ds| - 1);
      assert Power(base, |ds|) == base * p;
      assert ds[0] * (base * p) == base * (ds[0] * p);
      assert base * (ds[0] * p + Positional(ds[1..], base)) == base * (ds[0] * p) + base * Positional(ds[1..], base);
    }
  }

  ghost predicate AreDecimalDigits(s: string, ds: seq<nat>) {
    |s| == |ds| && forall i | 0 <= i < |s| :: ds[i] < 10 && s[i] == "0123456789"[ds[i]]
  }

  ghost predicate AreHexDigits(s: string, ds: seq<nat>) {
    |s| == |ds| && forall i | 0 <= i < |s| ::
      ds[i] < 16 && (s[i] == "0123456789abcdef"[ds[i]] || s[i] == "0123456789ABCDEF"[ds[i]])
  }

  lemma HexDigitValue(c: char, d: nat)
    requires d < 16 && (c == "0123456789abcdef"[d] || c == "0123456789ABCDEF"[d])
    ensures IsHexDigit(c) && HexValue(c) == d
  {
  }

  lemma {:induction false} HexIsPositional(s: string, ds: seq<nat>)
    requires AreHexDigits(s, ds)
    ensures AllIn(s, HexDigits) && ParseHex(s) == Positional(ds, 16)
  {
    forall i | 0 <= i < |s| ensures IsHexDigit(s[i]) && HexValue(s[i]) == ds[i] {
      HexDigitValue(s[i], ds[i]);
    }
    if s != "" {
      var n := |s| - 1;
      HexIsPositional(s[..n], ds[..n]);
      PositionalAppend(ds[..n], ds[n], 16);
      assert ds == ds[..n] + [ds[n]];
    }
  }

  lemma {:induction false} DecimalIsPositional(s: string, ds: seq<nat>)
    requires AreDecimalDigits(s, ds)
    ensures AllDigits(s) && ParseDecimal(s) == Positional(ds, 10)
  {
    assert forall i | 0 <= i < |s| :: IsDigit(s[i]) && DigitValue(s[i]) == ds[i];
    if s != "" {
      var n := |s| - 1;
      DecimalIsPositional(s[..n], ds[..n]);
      PositionalAppend(ds[..n], ds[n], 10);
      assert ds == ds[..n] + [ds[n]];
    }
  }

  /** A number token has its positional value, also with leading zeros and with capital digits: to the base 16 after
      `0x` and to the base 10 otherwise.  A bare `0x` is not a number. */
  lemma NumeralsArePositional(s: string, ds: seq<nat>)
    ensures s != "" && AreHexDigits(s, ds) ==> ParseInt("0x" + s) == Int(Positional(ds, 16))
    ensures s != "" && AreDecimalDigits(s, ds) ==> ParseInt(s) == Int(Positional(ds, 10))
    ensures ParseInt("0x") == NaN
  {
    hide AreHexDigits, AreDecimalDigits;
    assert ("0x" + s)[2..] == s;
    if AreHexDigits(s, ds) {
      HexIsPositional(s, ds);
    }
    if AreDecimalDigits(s, ds) {
      DecimalIsPositional(s, ds);
      assert !("0x" <= s) by {
        assert |s| > 1 ==> IsDigit(s[1]);
      }
    }
  }

  // ---- Two spellings of the same operator

  /** `==` and `===` are alike, and so are `!=` and `!==`. */
  predicate Alike(a: TokenKind, b: TokenKind) {
    || a == b
    || ((a == EqualsEquals || a == EqualsEqualsEquals) && (b == EqualsEquals || b == EqualsEqualsEquals))
    || ((a == ExclamationEquals || a == ExclamationEqualsEquals)
        && (b == ExclamationEquals || b == ExclamationEqualsEquals))
  }

  ghost predicate AllAlike(ts: Toks, us: Toks) {
    |ts| == |us| && forall i | 0 <= i < |ts| :: Alike(ts[i].kind, us[i].kind) && ts[i].value == us[i].value
  }

  ghost predicate SameAtoms(ts: Toks, us: Toks, pos: nat) {
    ParseAtom(ts, pos) == ParseAtom(us, pos) && MoreAtoms(ts, pos) == MoreAtoms(us, pos)
  }

  ghost predicate SameOperands(ts: Toks, us: Toks, pos: nat) {
    ParseOperand(ts, pos) == ParseOperand(us, pos) && MoreOperands(ts, pos) == MoreOperands(us, pos)
  }

  ghost predicate SameFrom(ts: Toks, us: Toks, pos: nat) {
    SameAtoms(ts, us, pos) && SameOperands(ts, us, pos) && ParseExpression(ts, pos) == ParseExpression(us, pos)
  }

  lemma SameComparison(ts: Toks, us: Toks, pos: nat)
    requires AllAlike(ts, us)
    ensures ParseComparison(ts, pos) == ParseComparison(us, pos)
  {
    hide ParseInt;
  }

  lemma AtomAlike(ts: Toks, us: Toks, pos: nat)
    requires AllAlike(ts, us) && forall q: nat | pos < q :: SameFrom(ts, us, q)
    ensures ParseAtom(ts, pos) == ParseAtom(us, pos)
  {
    hide ParseComparison, ParseExpression, SameOperands, SameAtoms;
    SameComparison(ts, us, pos);
    assert SameFrom(ts, us, pos + 1);
  }

  lemma MoreAtomsAlike(ts: Toks, us: Toks, pos: nat)
    requires AllAlike(ts, us) && forall q: nat | pos < q :: SameFrom(ts, us, q)
    ensures MoreAtoms(ts, pos) == MoreAtoms(us, pos)
  {
    hide ParseAtom, ParseExpression, SameOperands;
    assert SameFrom(ts, us, pos + 1);
    var next := ParseAtom(ts, pos + 1);
    if next.Success? {
      assert SameFrom(ts, us, next.pos);
    }
  }

  lemma OperandAlike(ts: Toks, us: Toks, pos: nat)
    requires AllAlike(ts, us) && SameAtoms(ts, us, pos) && forall q: nat | pos < q :: SameFrom(ts, us, q)
    ensures ParseOperand(ts, pos) == ParseOperand(us, pos)
  {
    hide ParseAtom, MoreAtoms, ParseExpression, SameOperands;
    var first := ParseAtom(ts, pos);
    if first.Success? {
      assert SameFrom(ts, us, first.pos) && SameFrom(ts, us, first.pos + 1);
      var second := ParseAtom(ts, first.pos + 1);
      if second.Success? {
        assert SameFrom(ts, us, second.pos);
      }
    }
  }

  lemma MoreOperandsAlike(ts: Toks, us: Toks, pos: nat)
    requires AllAlike(ts, us) && forall q: nat | pos < q :: SameFrom(ts, us, q)
    ensures MoreOperands(ts, pos) == MoreOperands(us, pos)
  {
    hide ParseOperand, ParseExpression, SameAtoms;
    assert SameFrom(ts, us, pos + 1);
    var next := ParseOperand(ts, pos + 1);
    if next.Success? {
      assert SameFrom(ts, us, next.pos);
    }
  }

  lemma ExpressionAlike(ts: Toks, us: Toks, pos: nat)
    requires AllAlike(ts, us) && SameOperands(ts, us, pos) && forall q: nat | pos < q :: SameFrom(ts, us, q)
    ensures ParseExpression(ts, pos) == ParseExpression(us, pos)
  {
    hide ParseOperand, MoreOperands, SameAtoms;
    var first := ParseOperand(ts, pos);
    if first.Success? {
      assert SameFrom(ts, us, first.pos) && SameFrom(ts, us, first.pos + 1);
      var second := ParseOperand(ts, first.pos + 1);
      if second.Success? {
        assert SameFrom(ts, us, second.pos);
      }
    }
  }

  lemma {:induction false} AlikeFrom(ts: Toks, us: Toks, pos: nat)
    requires AllAlike(ts, us)
    ensures SameFrom(ts, us, pos)
    decreases if pos <= |ts| then |ts| - pos + 1 else 0
  {
    if pos <= |ts| {
      hide ParseAtom, MoreAtoms, ParseOperand, MoreOperands, ParseExpression;
      forall q: nat | pos < q ensures SameFrom(ts, us, q) {
        AlikeFrom(ts, us, q);
      }
      AtomAlike(ts, us, pos);
      MoreAtomsAlike(ts, us, pos);
      OperandAlike(ts, us, pos);
      MoreOperandsAlike(ts, us, pos);
      ExpressionAlike(ts, us, pos);
    } else {
      hide ParseAtom, MoreAtoms, ParseOperand, MoreOperands, ParseExpression;
      NothingBeyond(ts, pos);
      NothingBeyond(us, pos);
    }
  }

  lemma NothingBeyond(ts: Toks, pos: nat)
    requires pos >= |ts|
    ensures ParseAtom(ts, pos) == ParseOperand(ts, pos) == ParseExpression(ts, pos) == Fail
    ensures MoreAtoms(ts, pos) == MoreOperands(ts, pos) == Success([], pos)
  {
    assert ParseAtom(ts, pos) == Fail;
    assert ParseAnd(ts, pos) == Fail;
    assert ParseOperand(ts, pos) == Fail;
    assert ParseOr(ts, pos) == Fail;
  }

  /** Replacing `==` by `===`, `!=` by `!==` or the other way round, anywhere in the tokens, changes nothing. */
  lemma SpellingDoesNotMatter(ts: Toks, us: Toks)
    requires AllAlike(ts, us)
    ensures ParseTokens(ts) == ParseTokens(us)
  {
    hide ParseExpression, SameAtoms, SameOperands;
    AlikeFrom(ts, us, 0);
  }
}
