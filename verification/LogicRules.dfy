/** Translating expressions to JSON Logic, evaluating the rules, and the proof that the translation keeps the
    meaning, up to version inequality, for which no operator is registered. */
module LogicRules {
  import opened LogicParser
  import opened LogicPrinter
  import opened LogicTokenizer
  import opened Text
  import opened Wrappers

  /** A JSON Logic rule: an operation on rules, a variable, or a literal. */
  datatype Rule =
    | Operation(op: string, args: seq<Rule>)
    | Var(name: string)
    | NumberRule(number: Number)
    | StringRule(text: string)

  /** `toRulesLogic`. */
  function ToRules(e: Expr): Rule {
    match e
    case Or(operands) => Operation("or", seq(|operands|, i requires 0 <= i < |operands| => ToRules(operands[i])))
    case And(operands) => Operation("and", seq(|operands|, i requires 0 <= i < |operands| => ToRules(operands[i])))
    case Comparison(left, op, Version(text)) => Operation(VersionOperation(op), [Var(left), StringRule(text)])
    case Comparison(left, op, NumberValue(n)) => Operation(NumberOperation(op), [Var(left), NumberRule(n)])
  }

  function VersionOperation(op: Operator): string {
    match op
    case Equal => "ver ==="
    case NotEqual => "ver !=="
    case Less => "ver <"
    case LessOrEqual => "ver <="
    case Greater => "ver >"
    case GreaterOrEqual => "ver >="
  }

  function NumberOperation(op: Operator): string {
    match op
    case Equal => "==="
    case NotEqual => "!=="
    case Less => "<"
    case LessOrEqual => "<="
    case Greater => ">"
    case GreaterOrEqual => ">="
  }

  // ---- Values and contexts

  /** A JavaScript number, apart from rounding and the sign of zero. */
  datatype JSNumber = NaN | NegativeInfinity | PositiveInfinity | Finite(value: real)

  function NumberOf(n: Number): JSNumber {
    match n
    case NaN => JSNumber.NaN
    case Int(k) => Finite(k as real)
  }

  datatype Value = Null | Undefined | BoolValue(b: bool) | NumValue(n: JSNumber) | StrValue(s: string)

  /** The variables, and JavaScript's conversion of strings to numbers, which relational operators apply. */
  datatype Context = Context(vars: map<string, Value>, stringToNumber: string -> JSNumber)

  /** `var` gives null for a variable that is absent or undefined. */
  function VarValue(ctx: Context, name: string): Value {
    if name in ctx.vars && ctx.vars[name] != Value.Undefined then ctx.vars[name] else Null
  }

  function ToNumber(ctx: Context, v: Value): JSNumber {
    match v
    case Null => Finite(0.0)
    case Undefined => JSNumber.NaN
    case BoolValue(b) => Finite(if b then 1.0 else 0.0)
    case NumValue(n) => n
    case StrValue(s) => ctx.stringToNumber(s)
  }

  predicate Truthy(v: Value) {
    match v
    case BoolValue(b) => b
    case NumValue(n) => !n.NaN? && n != Finite(0.0)
    case StrValue(s) => s != ""
    case _ => false
  }

  // ---- Semantic versions

  type Triple = (nat, nat, nat)

  /** `padVersion`. */
  function PadVersion(v: string): string {
    if |SplitOn(v, '.')| == 3 then v else v + ".0"
  }

  /** A number in a semantic version: digits, no leading zero. */
  predicate IsVersionPart(s: string) {
    s != "" && AllDigits(s) && (s[0] == '0' ==> s == "0") && ParseDecimal(s) <= 0x1f_ffff_ffff_ffff
  }

  function TrimLeft(s: string): string {
    if s != "" && IsSpace(s[0]) then TrimLeft(s[1..]) else s
  }

  function TrimRight(s: string): string {
    if s != "" && IsSpace(s[|s| - 1]) then TrimRight(s[..|s| - 1]) else s
  }

  /** What semver matches against its pattern: without outer white space and one leading `v`. */
  function SemverText(v: string): string {
    var t := TrimLeft(TrimRight(v));
    if t != "" && t[0] == 'v' then t[1..] else t
  }

  /** The longest version that semver accepts. */
  const MAX_LENGTH := 256

  /** The version that the semver functions see; `None` where they throw. */
  function ParseTriple(v: string): Option<Triple> {
    var p := SplitOn(SemverText(v), '.');
    if |v| <= MAX_LENGTH && |p| == 3 && IsVersionPart(p[0]) && IsVersionPart(p[1]) && IsVersionPart(p[2])
    then Some((ParseDecimal(p[0]), ParseDecimal(p[1]), ParseDecimal(p[2])))
    else None
  }

  function PaddedTriple(v: Value): Option<Triple> {
    if v.StrValue? then ParseTriple(PadVersion(v.s)) else None
  }

  function CompareNumbers(a: int, b: int): int {
    if a < b then -1 else if a > b then 1 else 0
  }

  /** semver's comparison: major, then minor, then patch. */
  function CompareTriples(a: Triple, b: Triple): int {
    var major := CompareNumbers(a.0, b.0);
    var minor := CompareNumbers(a.1, b.1);
    if major != 0 then major else if minor != 0 then minor else CompareNumbers(a.2, b.2)
  }

  // ---- Evaluating rules, as the json-logic library does

  datatype Eval = Value(value: Value) | Thrown

  predicate NumberLess(a: JSNumber, b: JSNumber) {
    && !a.NaN? && !b.NaN? && a != b
    && (a.NegativeInfinity? || b.PositiveInfinity? || (a.Finite? && b.Finite? && a.value < b.value))
  }

  predicate NumberLessOrEqual(a: JSNumber, b: JSNumber) {
    !a.NaN? && (a == b || NumberLess(a, b))
  }

  /** `===`, which makes NaN different from itself. */
  predicate StrictEqual(a: Value, b: Value) {
    a == b && a != NumValue(JSNumber.NaN)
  }

  /** The registered operators on two values.  The version operators return false where semver throws. */
  function ApplyOperator(ctx: Context, op: string, a: Value, b: Value): Eval {
    if op == "===" then Value(BoolValue(StrictEqual(a, b)))
    else if op == "!==" then Value(BoolValue(!StrictEqual(a, b)))
    else if op == "<" then Value(BoolValue(NumberLess(ToNumber(ctx, a), ToNumber(ctx, b))))
    else if op == "<=" then Value(BoolValue(NumberLessOrEqual(ToNumber(ctx, a), ToNumber(ctx, b))))
    else if op == ">" then Value(BoolValue(NumberLess(ToNumber(ctx, b), ToNumber(ctx, a))))
    else if op == ">=" then Value(BoolValue(NumberLessOrEqual(ToNumber(ctx, b), ToNumber(ctx, a))))
    else if op in {"ver >=", "ver >", "ver <=", "ver <", "ver ==="} then
      var x, y := PaddedTriple(a), PaddedTriple(b);
      if x.None? || y.None? then Value(BoolValue(false))
      else
        var c := CompareTriples(x.value, y.value);
        Value(BoolValue(
          if op == "ver >=" then c >= 0 else if op == "ver >" then c > 0
          else if op == "ver <=" then c <= 0 else if op == "ver <" then c < 0 else c == 0))
    else Thrown
  }

  /** `apply`: `and` returns its first falsy or its last value, `or` its first truthy or its last value; an
      unknown operator throws. */
  function Apply(rule: Rule, ctx: Context): Eval
    decreases rule
  {
    match rule
    case Var(name) => Value(VarValue(ctx, name))
    case NumberRule(n) => Value(NumValue(NumberOf(n)))
    case StringRule(s) => Value(StrValue(s))
    case Operation(op, args) =>
      if op == "and" then ApplyUntil(args, ctx, false)
      else if op == "or" then ApplyUntil(args, ctx, true)
      else if |args| != 2 then Thrown
      else
        var a := Apply(args[0], ctx);
        var b := Apply(args[1], ctx);
        if a.Thrown? || b.Thrown? then Thrown else ApplyOperator(ctx, op, a.value, b.value)
  }

  /** The first value whose truthiness is `stop`, or the last value. */
  function ApplyUntil(args: seq<Rule>, ctx: Context, stop: bool): Eval
    decreases args
  {
    if args == [] then Value(Value.Undefined)
    else
      var first := Apply(args[0], ctx);
      if first.Thrown? || Truthy(first.value) == stop || |args| == 1 then first
      else ApplyUntil(args[1..], ctx, stop)
  }

  // ---- What an expression means

  /** Lexicographic order on versions. */
  predicate Before(a: Triple, b: Triple) {
    a.0 < b.0 || (a.0 == b.0 && (a.1 < b.1 || (a.1 == b.1 && a.2 < b.2)))
  }

  predicate VersionHolds(op: Operator, a: Option<Triple>, b: Option<Triple>) {
    a.Some? && b.Some? &&
    match op
    case Equal => a.value == b.value
    case NotEqual => a.value != b.value
    case Less => Before(a.value, b.value)
    case LessOrEqual => !Before(b.value, a.value)
    case Greater => Before(b.value, a.value)
    case GreaterOrEqual => !Before(a.value, b.value)
  }

  predicate NumberHolds(ctx: Context, op: Operator, v: Value, n: Number) {
    match op
    case Equal => n.Int? && v == NumValue(Finite(n.value as real))
    case NotEqual => !(n.Int? && v == NumValue(Finite(n.value as real)))
    case Less => NumberLess(ToNumber(ctx, v), NumberOf(n))
    case LessOrEqual => NumberLessOrEqual(ToNumber(ctx, v), NumberOf(n))
    case Greater => NumberLess(NumberOf(n), ToNumber(ctx, v))
    case GreaterOrEqual => NumberLessOrEqual(NumberOf(n), ToNumber(ctx, v))
  }

  /** The direct truth value of an expression. */
  ghost predicate Holds(e: Expr, ctx: Context) {
    match e
    case Or(operands) => exists i | 0 <= i < |operands| :: Holds(operands[i], ctx)
    case And(operands) => forall i | 0 <= i < |operands| :: Holds(operands[i], ctx)
    case Comparison(left, op, Version(text)) =>
      VersionHolds(op, PaddedTriple(VarValue(ctx, left)), PaddedTriple(StrValue(text)))
    case Comparison(left, op, NumberValue(n)) => NumberHolds(ctx, op, VarValue(ctx, left), n)
  }

  /** Evaluation from left to right, stopping early, comes to a version inequality. */
  ghost predicate MeetsInequality(e: Expr, ctx: Context) {
    match e
    case Or(operands) =>
      exists i | 0 <= i < |operands| ::
        MeetsInequality(operands[i], ctx)
        && forall j | 0 <= j < i :: !MeetsInequality(operands[j], ctx) && !Holds(operands[j], ctx)
    case And(operands) =>
      exists i | 0 <= i < |operands| ::
        MeetsInequality(operands[i], ctx)
        && forall j | 0 <= j < i :: !MeetsInequality(operands[j], ctx) && Holds(operands[j], ctx)
    case Comparison(_, op, right) => op == NotEqual && right.Version?
  }

  ghost predicate HasVersionInequality(e: Expr) {
    match e
    case Or(operands) => exists i | 0 <= i < |operands| :: HasVersionInequality(operands[i])
    case And(operands) => exists i | 0 <= i < |operands| :: HasVersionInequality(operands[i])
    case Comparison(_, op, right) => op == NotEqual && right.Version?
  }

  /** Every `And` and `Or` has an operand, as in every tree the parser returns (see `ParsedIsNonEmpty`). */
  ghost predicate NonEmpty(e: Expr) {
    match e
    case Or(operands) => operands != [] && forall i | 0 <= i < |operands| :: NonEmpty(operands[i])
    case And(operands) => operands != [] && forall i | 0 <= i < |operands| :: NonEmpty(operands[i])
    case Comparison(_, _, _) => true
  }

  // ---- The translation keeps the meaning

  ghost function Meaning(e: Expr, ctx: Context): Eval {
    if MeetsInequality(e, ctx) then Thrown else Value(BoolValue(Holds(e, ctx)))
  }

  lemma CompareIsLexicographic(a: Triple, b: Triple)
    ensures CompareTriples(a, b) < 0 <==> Before(a, b)
    ensures CompareTriples(a, b) > 0 <==> Before(b, a)
    ensures CompareTriples(a, b) == 0 <==> a == b
  {
  }

  lemma ComparisonMeaning(e: Expr, ctx: Context)
    requires e.Comparison?
    ensures Apply(ToRules(e), ctx) == Meaning(e, ctx)
  {
    hide PaddedTriple, CompareTriples, Before;
    if e.right.Version? {
      var a, b := PaddedTriple(VarValue(ctx, e.left)), PaddedTriple(StrValue(e.right.text));
      if a.Some? && b.Some? {
        CompareIsLexicographic(a.value, b.value);
      }
    }
  }

  function RulesOf(es: seq<Expr>): seq<Rule> {
    seq(|es|, i requires 0 <= i < |es| => ToRules(es[i]))
  }

  /** What `or` (for `stop`) and `and` (for `!stop`) make of the meanings of their operands. */
  ghost predicate StopsAt(es: seq<Expr>, ctx: Context, stop: bool, i: int) {
    && 0 <= i < |es|
    && (MeetsInequality(es[i], ctx) || Holds(es[i], ctx) == stop)
    && forall j | 0 <= j < i :: !MeetsInequality(es[j], ctx) && Holds(es[j], ctx) != stop
  }

  lemma {:induction false} UntilMeaning(es: seq<Expr>, ctx: Context, stop: bool) returns (i: int)
    requires es != [] && forall k | 0 <= k < |es| :: Apply(ToRules(es[k]), ctx) == Meaning(es[k], ctx)
    ensures if 0 <= i < |es|
            then StopsAt(es, ctx, stop, i) && ApplyUntil(RulesOf(es), ctx, stop) == Meaning(es[i], ctx)
            else (forall j | 0 <= j < |es| :: !MeetsInequality(es[j], ctx) && Holds(es[j], ctx) != stop)
                 && ApplyUntil(RulesOf(es), ctx, stop) == Value(BoolValue(!stop))
  {
    hide Apply, ToRules, MeetsInequality, Holds;
    var rest := es[1..];
    assert RulesOf(es)[1..] == RulesOf(rest);
    assert forall k | 0 <= k < |rest| :: rest[k] == es[k + 1];
    if MeetsInequality(es[0], ctx) || Holds(es[0], ctx) == stop {
      i := 0;
    } else if rest == [] {
      i := 1;
    } else {
      var k := UntilMeaning(rest, ctx, stop);
      i := if 0 <= k < |rest| then k + 1 else |es|;
      assert forall j | 1 <= j < |es| :: es[j] == rest[j - 1];
    }
  }

  /** Evaluating the translation throws exactly if the evaluation comes to a version inequality, and gives the
      truth value of the expression otherwise. */
  lemma {:induction false} TranslationKeepsMeaning(e: Expr, ctx: Context)
    requires NonEmpty(e)
    ensures Apply(ToRules(e), ctx) == if MeetsInequality(e, ctx) then Thrown else Value(BoolValue(Holds(e, ctx)))
    decreases e
  {
    hide Apply;
    if e.Comparison? {
      ComparisonMeaning(e, ctx);
    } else {
      var es := e.operands;
      forall k | 0 <= k < |es| ensures Apply(ToRules(es[k]), ctx) == Meaning(es[k], ctx) {
        TranslationKeepsMeaning(es[k], ctx);
      }
      var i := UntilMeaning(es, ctx, e.Or?);
      ApplyIsUntil(e, ctx);
    }
  }

  lemma ApplyIsUntil(e: Expr, ctx: Context)
    requires !e.Comparison?
    ensures Apply(ToRules(e), ctx) == ApplyUntil(RulesOf(e.operands), ctx, e.Or?)
  {
  }

  lemma {:induction false} NoInequalityIsMet(e: Expr, ctx: Context)
    requires !HasVersionInequality(e)
    ensures !MeetsInequality(e, ctx)
    decreases e
  {
    hide Holds;
    if !e.Comparison? {
      forall i | 0 <= i < |e.operands| ensures !MeetsInequality(e.operands[i], ctx) {
        NoInequalityIsMet(e.operands[i], ctx);
      }
    }
  }

  lemma InequalityParses()
    ensures ParseString("v !== 2.0") == Tree(Comparison("v", NotEqual, Version("2.0")))
  {
    hide ParseString;
    var e := Comparison("v", NotEqual, Version("2.0"));
    assert IsVersion2("2.0", "2", "0");
    assert IsIdentifier("v");
    PrintThenParse(e);
    assert Print(e) == "v !== 2.0";
  }

  /** A version inequality throws although it has a truth value. */
  lemma VersionInequalityThrows(ctx: Context)
    requires ctx.vars == map["v" := StrValue("1.0")]
    ensures var e := Comparison("v", NotEqual, Version("2.0"));
            Apply(ToRules(e), ctx) == Thrown && ParseString("v !== 2.0") == Tree(e)
  {
    hide ParseString, PaddedTriple;
    InequalityParses();
  }

  /** `evaluate`. */
  function Evaluate(logic: string, ctx: Context): Eval {
    var r := ParseString(logic);
    if r.Tree? then Apply(ToRules(r.expr), ctx) else Thrown
  }

  // ---- What the parser returns has operands everywhere

  ghost predicate AllNonEmpty(es: seq<Expr>) {
    es != [] && forall k | 0 <= k < |es| :: NonEmpty(es[k])
  }

  lemma {:induction false} AtomIsNonEmpty(ts: Toks, i: nat, j: nat, e: Expr)
    requires DerivesAtom(ts, i, j, e)
    ensures NonEmpty(e)
    decreases if i <= j then j - i else 0, 0
  {
    hide DerivesExpr;
    if !IsComparison(ts, i, j, e) {
      ExprIsNonEmpty(ts, i + 1, j - 1, e);
    }
  }

  lemma {:induction false} AtomsAreNonEmpty(ts: Toks, i: nat, j: nat, es: seq<Expr>)
    requires DerivesAtoms(ts, i, j, es)
    ensures AllNonEmpty(es)
    decreases if i <= j then j - i else 0, 1
  {
    hide DerivesAtom, NonEmpty;
    if |es| == 1 {
      AtomIsNonEmpty(ts, i, j, es[0]);
    } else {
      var k :| i < k < j && DerivesAtom(ts, i, k, es[0]) && Is(ts, k, AmpAmp) && DerivesAtoms(ts, k + 1, j, es[1..]);
      AtomIsNonEmpty(ts, i, k, es[0]);
      AtomsAreNonEmpty(ts, k + 1, j, es[1..]);
      assert forall m | 1 <= m < |es| :: es[m] == es[1..][m - 1];
    }
  }

  lemma {:induction false} OperandIsNonEmpty(ts: Toks, i: nat, j: nat, e: Expr)
    requires DerivesOperand(ts, i, j, e)
    ensures NonEmpty(e)
    decreases if i <= j then j - i else 0, 2
  {
    hide DerivesAtom, DerivesAtoms;
    if DerivesAtom(ts, i, j, e) {
      AtomIsNonEmpty(ts, i, j, e);
    } else {
      AtomsAreNonEmpty(ts, i, j, e.operands);
    }
  }

  lemma {:induction false} OperandsAreNonEmpty(ts: Toks, i: nat, j: nat, es: seq<Expr>)
    requires DerivesOperands(ts, i, j, es)
    ensures AllNonEmpty(es)
    decreases if i <= j then j - i else 0, 3
  {
    hide DerivesOperand, NonEmpty;
    if |es| == 1 {
      OperandIsNonEmpty(ts, i, j, es[0]);
    } else {
      var k :| i < k < j && DerivesOperand(ts, i, k, es[0]) && Is(ts, k, BarBar)
               && DerivesOperands(ts, k + 1, j, es[1..]);
      OperandIsNonEmpty(ts, i, k, es[0]);
      OperandsAreNonEmpty(ts, k + 1, j, es[1..]);
      assert forall m | 1 <= m < |es| :: es[m] == es[1..][m - 1];
    }
  }

  lemma {:induction false} ExprIsNonEmpty(ts: Toks, i: nat, j: nat, e: Expr)
    requires DerivesExpr(ts, i, j, e)
    ensures NonEmpty(e)
    decreases if i <= j then j - i else 0, 4
  {
    hide DerivesOperand, DerivesOperands;
    if DerivesOperand(ts, i, j, e) {
      OperandIsNonEmpty(ts, i, j, e);
    } else {
      OperandsAreNonEmpty(ts, i, j, e.operands);
    }
  }

  lemma ParsedIsNonEmpty(input: string)
    requires ParseString(input).Tree?
    ensures NonEmpty(ParseString(input).expr)
  {
    hide Lex, ParseTokens, DerivesExpr, NonEmpty;
    var ts := Lex(input, 0).tokens;
    ParserDecidesGrammar(ts);
    ExprIsNonEmpty(ts, 0, |ts|, ParseString(input).expr);
  }

  /** From text to truth, for every text and every context: evaluation throws exactly if the text does not parse or
      comes to a version inequality, and gives the truth value of the parsed expression otherwise. */
  lemma EvaluateIsTruth(logic: string, ctx: Context)
    ensures var parsed := ParseString(logic);
            Evaluate(logic, ctx)
            == if parsed.Tree? && !MeetsInequality(parsed.expr, ctx) then Value(BoolValue(Holds(parsed.expr, ctx)))
               else Thrown
  {
    hide ParseString, Apply, ToRules, Holds, MeetsInequality, NonEmpty;
    if ParseString(logic).Tree? {
      ParsedIsNonEmpty(logic);
      TranslationKeepsMeaning(ParseString(logic).expr, ctx);
    }
  }

  /** In particular for the rendering of an expression without version inequality. */
  lemma EvaluatePrinted(e: Expr, ctx: Context)
    requires Printable(e) && !HasVersionInequality(e)
    ensures Evaluate(Print(e), ctx) == Value(BoolValue(Holds(e, ctx)))
  {
    hide Printable, Print, Holds, Evaluate, MeetsInequality, HasVersionInequality;
    PrintThenParse(e);
    NoInequalityIsMet(e, ctx);
    EvaluateIsTruth(Print(e), ctx);
  }
}
