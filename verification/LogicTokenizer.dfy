/** Tokens of the condition language, and the tokenizer. */
module LogicTokenizer {
  import opened Text

  datatype TokenKind =
    | Identifier | NumberLiteral | Dot | LeftParen | RightParen | BarBar | AmpAmp
    | EqualsEquals | EqualsEqualsEquals | ExclamationEquals | ExclamationEqualsEquals
    | LessThan | LessThanEquals | GreaterThan | GreaterThanEquals

  datatype Token = Token(start: nat, kind: TokenKind, value: string)

  /** A token list, or the position of a character that starts no token. */
  datatype Lexed = Tokens(tokens: seq<Token>) | UnexpectedCharacter(index: nat)

  // ---- Character classes

  /** What the regular expression `\s` matches. */
  predicate IsSpace(c: char) {
    '\t' <= c <= '\r' || c == ' ' || c == '\U{a0}' || c == '\U{1680}' || '\U{2000}' <= c <= '\U{200a}'
    || c == '\U{2028}' || c == '\U{2029}' || c == '\U{202f}' || c == '\U{205f}' || c == '\U{3000}' || c == '\U{feff}'
  }

  predicate IsIdentifierStart(c: char) {
    'a' <= c <= 'z' || 'A' <= c <= 'Z' || c == '_' || c == '$'
  }

  predicate IsIdentifierChar(c: char) {
    IsIdentifierStart(c) || IsDigit(c)
  }

  datatype Class = HexDigits | Digits | IdentifierChars

  predicate InClass(c: char, k: Class) {
    match k
    case HexDigits => IsHexDigit(c)
    case Digits => IsDigit(c)
    case IdentifierChars => IsIdentifierChar(c)
  }

  predicate AllIn(s: string, k: Class) {
    forall i | 0 <= i < |s| :: InClass(s[i], k)
  }

  /** How many leading characters of `s` are in the class. */
  function Run(s: string, k: Class): (n: nat)
    ensures n <= |s| && AllIn(s[..n], k) && (n < |s| ==> !InClass(s[n], k))
  {
    if s == "" || !InClass(s[0], k) then 0
    else
      var n := 1 + Run(s[1..], k);
      assert s[..n] == [s[0]] + s[1..][..n - 1];
      n
  }

  lemma {:induction false} RunOf(s: string, rest: string, k: Class)
    requires AllIn(s, k) && (rest == "" || !InClass(rest[0], k))
    ensures Run(s + rest, k) == |s|
  {
    if s == "" {
      assert s + rest == rest;
    } else {
      assert (s + rest)[1..] == s[1..] + rest;
      RunOf(s[1..], rest, k);
    }
  }

  // ---- The tokenizer's specification

  /** What the first characters of the input are: something to skip, a token, or an error. */
  datatype Step = Skip(length: nat) | Emit(length: nat, kind: TokenKind, value: string) | Stuck

  predicate At(s: string, i: nat, c: char) {
    i < |s| && s[i] == c
  }

  function LexStep(s: string): (r: Step)
    requires s != ""
    ensures r.Skip? || r.Emit? ==> 0 < r.length <= |s|
  {
    match s[0]
    case '.' => Emit(1, Dot, "")
    case '(' => Emit(1, LeftParen, "")
    case ')' => Emit(1, RightParen, "")
    case '|' => if At(s, 1, '|') then Emit(2, BarBar, "") else Skip(1)
    case '&' => if At(s, 1, '&') then Emit(2, AmpAmp, "") else Skip(1)
    case '=' =>
      if At(s, 1, '=') then
        if At(s, 2, '=') then Emit(3, EqualsEqualsEquals, "") else Emit(2, EqualsEquals, "")
      else Skip(1)
    case '!' =>
      if At(s, 1, '=') then
        if At(s, 2, '=') then Emit(3, ExclamationEqualsEquals, "") else Emit(2, ExclamationEquals, "")
      else Skip(1)
    case '<' => if At(s, 1, '=') then Emit(2, LessThanEquals, "") else Emit(1, LessThan, "")
    case '>' => if At(s, 1, '=') then Emit(2, GreaterThanEquals, "") else Emit(1, GreaterThan, "")
    case _ => LexWord(s)
  }

  /** White space, numbers and identifiers. */
  function LexWord(s: string): (r: Step)
    requires s != ""
    ensures r.Skip? || r.Emit? ==> 0 < r.length <= |s|
  {
    if IsSpace(s[0]) then Skip(1)
    else if s[0] == '0' && At(s, 1, 'x') then
      var n := 2 + Run(s[2..], HexDigits);
      Emit(n, NumberLiteral, s[..n])
    else if IsDigit(s[0]) then
      var n := Run(s, Digits);
      Emit(n, NumberLiteral, s[..n])
    else if IsIdentifierStart(s[0]) then
      var n := Run(s, IdentifierChars);
      Emit(n, Identifier, s[..n])
    else Stuck
  }

  function Prepend(ts: seq<Token>, r: Lexed): Lexed {
    if r.Tokens? then Tokens(ts + r.tokens) else r
  }

  /** The tokens of `s`, which stands at position `at` of the input. */
  function Lex(s: string, at: nat): Lexed
    decreases |s|
  {
    if s == "" then Tokens([])
    else
      match LexStep(s)
      case Skip(n) => Lex(s[n..], at + n)
      case Emit(n, kind, value) => Prepend([Token(at, kind, value)], Lex(s[n..], at + n))
      case Stuck => UnexpectedCharacter(at)
  }

  lemma PrependTwice(a: seq<Token>, b: seq<Token>, r: Lexed)
    ensures Prepend(a, Prepend(b, r)) == Prepend(a + b, r)
  {
  }

  // ---- The tokenizer

  predicate InputAt(input: string, i: nat, c: char) {
    i < |input| && input[i] == c
  }

  /** The loop that collects the characters of one word. */
  method ScanRun(input: string, start: nat, k: Class) returns (i: nat)
    requires start <= |input|
    ensures i == start + Run(input[start..], k)
  {
    i := start;
    while i < |input| && InClass(input[i], k)
      invariant start <= i <= |input|
      invariant start + Run(input[start..], k) == i + Run(input[i..], k)
    {
      assert input[i..][1..] == input[i + 1..];
      i := i + 1;
    }
  }

  /** The white space, number and identifier cases of the tokenizer loop. */
  method ScanWord(input: string, i: nat) returns (step: Step)
    requires i < |input|
    ensures step == LexWord(input[i..])
  {
    ghost var s := input[i..];
    if IsSpace(input[i]) {
      return Skip(1);
    }
    if input[i] == '0' && InputAt(input, i + 1, 'x') {
      var end := ScanRun(input, i + 2, HexDigits);
      assert s[2..] == input[i + 2..] && s[..end - i] == input[i..end];
      return Emit(end - i, NumberLiteral, input[i..end]);
    }
    if IsDigit(input[i]) {
      var end := ScanRun(input, i, Digits);
      assert s[..end - i] == input[i..end];
      return Emit(end - i, NumberLiteral, input[i..end]);
    }
    if IsIdentifierStart(input[i]) {
      var end := ScanRun(input, i, IdentifierChars);
      assert s[..end - i] == input[i..end];
      return Emit(end - i, Identifier, input[i..end]);
    }
    return Stuck;
  }

  /** The cases of the tokenizer loop. */
  method Scan(input: string, i: nat) returns (step: Step)
    requires i < |input|
    ensures step == LexStep(input[i..])
  {
    hide LexWord;
    match input[i]
    case '.' => step := Emit(1, Dot, "");
    case '(' => step := Emit(1, LeftParen, "");
    case ')' => step := Emit(1, RightParen, "");
    case '|' => step := if InputAt(input, i + 1, '|') then Emit(2, BarBar, "") else Skip(1);
    case '&' => step := if InputAt(input, i + 1, '&') then Emit(2, AmpAmp, "") else Skip(1);
    case '=' =>
      if InputAt(input, i + 1, '=') {
        step := if InputAt(input, i + 2, '=') then Emit(3, EqualsEqualsEquals, "") else Emit(2, EqualsEquals, "");
      } else {
        step := Skip(1);
      }
    case '!' =>
      if InputAt(input, i + 1, '=') {
        step := if InputAt(input, i + 2, '=') then Emit(3, ExclamationEqualsEquals, "")
                else Emit(2, ExclamationEquals, "");
      } else {
        step := Skip(1);
      }
    case '<' => step := if InputAt(input, i + 1, '=') then Emit(2, LessThanEquals, "") else Emit(1, LessThan, "");
    case '>' => step := if InputAt(input, i + 1, '=') then Emit(2, GreaterThanEquals, "") else Emit(1, GreaterThan, "");
    case _ => step := ScanWord(input, i);
  }

  method Tokenize(input: string) returns (r: Lexed)
    ensures r == Lex(input, 0)
  {
    hide LexStep;
    var tokens: seq<Token> := [];
    var i := 0;
    assert input[0..] == input;
    while i < |input|
      invariant 0 <= i <= |input|
      invariant Lex(input, 0) == Prepend(tokens, Lex(input[i..], i))
    {
      var step := Scan(input, i);
      match step
      case Skip(n) =>
        assert input[i..][n..] == input[i + n..];
        i := i + n;
      case Emit(n, kind, value) =>
        assert input[i..][n..] == input[i + n..];
        PrependTwice(tokens, [Token(i, kind, value)], Lex(input[i + n..], i + n));
        tokens := tokens + [Token(i, kind, value)];
        i := i + n;
      case Stuck =>
        return UnexpectedCharacter(i);
    }
    return Tokens(tokens);
  }
}
