/** What comparisons in conditions mean: which texts are versions, how versions of two and three parts compare, and how
    numbers compare with the values a variable may have. */
module LogicVersions {
  import opened LogicParser
  import opened LogicPrinter
  import opened LogicRules
  import opened LogicTokenizer
  import opened Text
  import opened Wrappers

  // ---- Which texts are versions

  /** The parts of a version are numbers that JavaScript holds exactly. */
  predicate IsSafe(t: Triple) {
    t.0 <= 0x1f_ffff_ffff_ffff && t.1 <= 0x1f_ffff_ffff_ffff && t.2 <= 0x1f_ffff_ffff_ffff
  }

  function ThreeParts(t: Triple): string {
    Decimal(t.0) + "." + Decimal(t.1) + "." + Decimal(t.2)
  }

  predicate IsBlank(s: string) {
    forall i | 0 <= i < |s| :: IsSpace(s[i])
  }

  /** `text` is a version of three parts, maybe with a `v` in front, inside white space. */
  ghost predicate Contains(text: string, before: string, mark: string, t: Triple, after: string) {
    && text == before + (mark + ThreeParts(t)) + after
    && IsBlank(before) && IsBlank(after) && (mark == "" || mark == "v")
  }

  lemma {:induction false} SplitCount(s: string, c: char)
    ensures |SplitOn(s, c)| == multiset(s)[c] + 1
  {
    if s != "" {
      SplitCount(s[1..], c);
      assert s == [s[0]] + s[1..];
    }
  }

  lemma DecimalIsPlain(n: nat)
    ensures '.' !in Decimal(n)
    ensures var s := Decimal(n); !IsSpace(s[0]) && s[0] != 'v' && !IsSpace(s[|s| - 1])
  {
    var s := Decimal(n);
    assert IsDigit(s[0]) && IsDigit(s[|s| - 1]);
    assert forall i | 0 <= i < |s| :: IsDigit(s[i]);
  }

  lemma ThreePartsSplit(t: Triple)
    ensures SplitOn(ThreeParts(t), '.') == [Decimal(t.0), Decimal(t.1), Decimal(t.2)]
  {
    hide Decimal;
    DecimalIsPlain(t.0);
    DecimalIsPlain(t.1);
    DecimalIsPlain(t.2);
    var rest := Decimal(t.1) + "." + Decimal(t.2);
    assert ThreeParts(t) == Decimal(t.0) + ['.'] + rest;
    SplitFirst(Decimal(t.0), rest, '.');
    SplitFirst(Decimal(t.1), Decimal(t.2), '.');
    SplitPlain(Decimal(t.2), '.');
  }

  lemma {:induction false} TrimLeftParts(s: string) returns (before: string)
    ensures s == before + TrimLeft(s) && IsBlank(before)
  {
    before := "";
    if s != "" && IsSpace(s[0]) {
      before := TrimLeftParts(s[1..]);
      before := [s[0]] + before;
      assert s == [s[0]] + s[1..];
    }
  }

  lemma {:induction false} TrimRightParts(s: string) returns (after: string)
    ensures s == TrimRight(s) + after && IsBlank(after)
  {
    after := "";
    if s != "" && IsSpace(s[|s| - 1]) {
      after := TrimRightParts(s[..|s| - 1]);
      assert s == s[..|s| - 1] + [s[|s| - 1]];
      after := after + [s[|s| - 1]];
    }
  }

  lemma {:induction false} TrimLeftOf(before: string, s: string)
    requires IsBlank(before) && s != "" && !IsSpace(s[0])
    ensures TrimLeft(before + s) == s
  {
    if before == "" {
      assert before + s == s;
    } else {
      assert (before + s)[1..] == before[1..] + s;
      TrimLeftOf(before[1..], s);
    }
  }

  lemma {:induction false} TrimRightOf(s: string, after: string)
    requires IsBlank(after) && s != "" && !IsSpace(s[|s| - 1])
    ensures TrimRight(s + after) == s
  {
    if after == "" {
      assert s + after == s;
    } else {
      assert (s + after)[..|s + after| - 1] == s + after[..|after| - 1];
      TrimRightOf(s, after[..|after| - 1]);
    }
  }

  lemma ThreePartsEnds(t: Triple)
    ensures var s := ThreeParts(t);
            s != "" && !IsSpace(s[0]) && s[0] != 'v' && !IsSpace(s[|s| - 1])
  {
    hide Decimal;
    DecimalIsPlain(t.0);
    DecimalIsPlain(t.2);
    var s := ThreeParts(t);
    assert s[0] == Decimal(t.0)[0] && s[|s| - 1] == Decimal(t.2)[|Decimal(t.2)| - 1];
  }

  lemma ContainedIsSeen(text: string, before: string, mark: string, t: Triple, after: string)
    requires Contains(text, before, mark, t, after)
    ensures SemverText(text) == ThreeParts(t)
  {
    hide ThreeParts, IsBlank, TrimLeft, TrimRight;
    ThreePartsEnds(t);
    var v := ThreeParts(t);
    var marked := mark + v;
    assert marked[0] == (if mark == "" then v[0] else 'v') && marked[|marked| - 1] == v[|v| - 1];
    assert !IsSpace('v');
    assert (before + marked)[|before + marked| - 1] == marked[|marked| - 1];
    TrimRightOf(before + marked, after);
    TrimLeftOf(before, marked);
    assert mark == "v" ==> marked[1..] == v;
    assert mark == "" ==> marked == v;
  }

  lemma SeenIsContained(text: string, t: Triple) returns (before: string, mark: string, after: string)
    requires SemverText(text) == ThreeParts(t)
    ensures Contains(text, before, mark, t, after)
  {
    hide ThreeParts, IsBlank, TrimLeft, TrimRight;
    after := TrimRightParts(text);
    before := TrimLeftParts(TrimRight(text));
    var marked := TrimLeft(TrimRight(text));
    mark := if marked != "" && marked[0] == 'v' then "v" else "";
    assert marked == mark + ThreeParts(t);
    assert text == (before + marked) + after;
  }

  lemma PartIff(s: string, n: nat)
    ensures IsVersionPart(s) && ParseDecimal(s) == n <==> s == Decimal(n) && n <= 0x1f_ffff_ffff_ffff
  {
    if IsVersionPart(s) {
      DecimalOfParse(s);
    }
  }

  lemma ThreeJoin(p: seq<string>, s: string)
    requires |p| == 3 && Join(p, '.') == s
    ensures s == p[0] + "." + p[1] + "." + p[2]
  {
    assert p[1..][0] == p[1] && p[1..][1..] == [p[2]];
    assert Join([p[2]], '.') == p[2];
    assert Join(p[1..], '.') == p[1] + ['.'] + p[2];
    assert s == p[0] + ['.'] + (p[1] + ['.'] + p[2]);
  }

  lemma ParsedIff(v: string, t: Triple)
    ensures ParseTriple(v) == Some(t) <==> |v| <= 256 && IsSafe(t) && SemverText(v) == ThreeParts(t)
  {
    hide SemverText, IsVersionPart, Decimal, ParseDecimal;
    var s := SemverText(v);
    var p := SplitOn(s, '.');
    if |p| == 3 {
      PartIff(p[0], t.0);
      PartIff(p[1], t.1);
      PartIff(p[2], t.2);
      SplitOnJoins(s, '.');
      ThreeJoin(p, s);
    }
    ThreePartsSplit(t);
  }

  /** Exactly which texts are the version `t`: with `.0` appended unless they have exactly two dots, they have at most
      256 characters and hold the three numbers without leading zeros, each up to 2^53 - 1, maybe with a `v` in front,
      inside white space.  All other texts are no version. */
  lemma PaddedTripleIff(v: string, t: Triple)
    ensures var padded := if multiset(v)['.'] == 2 then v else v + ".0";
            PaddedTriple(StrValue(v)) == Some(t) <==>
            |padded| <= 256 && IsSafe(t) && exists before, mark, after :: Contains(padded, before, mark, t, after)
  {
    hide ParseTriple, SemverText, ThreeParts;
    SplitCount(v, '.');
    var padded := PadVersion(v);
    ParsedIff(padded, t);
    if SemverText(padded) == ThreeParts(t) {
      var before, mark, after := SeenIsContained(padded, t);
    }
    if before, mark, after :| Contains(padded, before, mark, t, after) {
      ContainedIsSeen(padded, before, mark, t, after);
    }
  }

  // ---- Versions of two and of three parts

  /** `v` is `a.b` for `(a, b, 0)`, or `a.b.c` for `(a, b, c)`. */
  ghost predicate Spells(v: string, t: Triple) {
    IsSafe(t) && (v == ThreeParts(t) || (t.2 == 0 && v == Decimal(t.0) + "." + Decimal(t.1)))
  }

  lemma SixteenDigits(n: nat)
    requires n <= 0x1f_ffff_ffff_ffff
    ensures |Decimal(n)| <= 16
  {
    assert Pow10(4) == 10000;
    assert Pow10(8) == 10000 * Pow10(4);
    assert Pow10(12) == 10000 * Pow10(8);
    assert Pow10(16) == 10000 * Pow10(12);
    DecimalLength(n, 16);
  }

  lemma ThreePartsAreSeen(t: Triple)
    requires IsSafe(t)
    ensures |ThreeParts(t)| <= 50 && SemverText(ThreeParts(t)) == ThreeParts(t)
  {
    hide Decimal;
    SixteenDigits(t.0);
    SixteenDigits(t.1);
    SixteenDigits(t.2);
    var v := ThreeParts(t);
    assert v == "" + ("" + v) + "";
    assert Contains(v, "", "", t, "");
    ContainedIsSeen(v, "", "", t, "");
  }

  lemma SpelledIsSeen(v: string, t: Triple)
    requires Spells(v, t)
    ensures PaddedTriple(StrValue(v)) == Some(t)
  {
    hide Decimal, ParseTriple, SemverText;
    ThreePartsAreSeen(t);
    ParsedIff(ThreeParts(t), t);
    if v == ThreeParts(t) {
      ThreePartsSplit(t);
    } else {
      DecimalIsPlain(t.0);
      DecimalIsPlain(t.1);
      SplitFirst(Decimal(t.0), Decimal(t.1), '.');
      SplitPlain(Decimal(t.1), '.');
      ZeroIsZero();
      assert v + ".0" == ThreeParts(t);
    }
  }

  lemma ZeroIsZero()
    ensures Decimal(0) == "0"
  {
  }

  lemma SpelledIsVersion(v: string, t: Triple)
    requires Spells(v, t)
    ensures IsVersion(v)
  {
    hide Decimal, IsNumeral;
    DecimalIsNumeral(t.0);
    DecimalIsNumeral(t.1);
    DecimalIsNumeral(t.2);
    if v == ThreeParts(t) {
      assert IsVersion3(v, Decimal(t.0), Decimal(t.1), Decimal(t.2));
    } else {
      assert IsVersion2(v, Decimal(t.0), Decimal(t.1));
    }
  }

  /** From text to truth: a comparison of a variable with a version compares the two lexicographically, after both were
      padded to three parts. */
  lemma VersionComparison(x: string, op: Operator, v: string, w: string, a: Triple, b: Triple, ctx: Context)
    requires IsIdentifier(x) && op != NotEqual && x in ctx.vars && ctx.vars[x] == StrValue(v)
    requires Spells(v, a) && Spells(w, b)
    ensures var less := a.0 < b.0 || (a.0 == b.0 && (a.1 < b.1 || (a.1 == b.1 && a.2 < b.2)));
            var greater := a.0 > b.0 || (a.0 == b.0 && (a.1 > b.1 || (a.1 == b.1 && a.2 > b.2)));
            Evaluate(x + " " + OperatorText(op) + " " + w, ctx)
            == Value(BoolValue(match op
                               case Equal => a == b
                               case Less => less
                               case LessOrEqual => !greater
                               case Greater => greater
                               case _ => !less))
  {
    hide Evaluate, PaddedTriple, Spells, IsVersion, IsIdentifier;
    var e := Comparison(x, op, Version(w));
    SpelledIsSeen(v, a);
    SpelledIsSeen(w, b);
    SpelledIsVersion(w, b);
    EvaluatePrinted(e, ctx);
  }

  /** A variable that holds no version makes every such comparison false. */
  lemma NoVersionIsFalse(x: string, op: Operator, w: string, ctx: Context)
    requires IsIdentifier(x) && op != NotEqual && IsVersion(w)
    requires forall t | x in ctx.vars :: PaddedTriple(ctx.vars[x]) != Some(t)
    ensures Evaluate(x + " " + OperatorText(op) + " " + w, ctx) == Value(BoolValue(false))
  {
    hide Evaluate, PaddedTriple, IsVersion, IsIdentifier;
    EvaluatePrinted(Comparison(x, op, Version(w)), ctx);
    NothingIsNoVersion();
  }

  lemma NothingIsNoVersion()
    ensures PaddedTriple(Value.Null) == PaddedTriple(Value.Undefined) == None
  {
  }

  // ---- Numbers

  /** The number that a relational operator sees: nothing counts as 0, truth values as 1 and 0, and a string is
      converted. */
  function SeenAsNumber(ctx: Context, x: string): JSNumber {
    if x !in ctx.vars then Finite(0.0)
    else
      match ctx.vars[x]
      case BoolValue(b) => Finite(if b then 1.0 else 0.0)
      case NumValue(m) => m
      case StrValue(s) => ctx.stringToNumber(s)
      case _ => Finite(0.0)
  }

  /** From text to truth: a comparison of a variable with an integer.  Equality also asks for the type. */
  lemma NumberComparison(x: string, op: Operator, n: nat, ctx: Context)
    requires IsIdentifier(x)
    ensures var equal := x in ctx.vars && ctx.vars[x] == NumValue(Finite(n as real));
            var truth := match op
                         case Equal => equal
                         case NotEqual => !equal
                         case _ =>
                           match SeenAsNumber(ctx, x)
                           case NaN => false
                           case NegativeInfinity => op == Less || op == LessOrEqual
                           case PositiveInfinity => op == Greater || op == GreaterOrEqual
                           case Finite(r) =>
                             if op == Less then r < n as real else if op == LessOrEqual then r <= n as real
                             else if op == Greater then r > n as real else r >= n as real;
            Evaluate(x + " " + OperatorText(op) + " " + Decimal(n), ctx) == Value(BoolValue(truth))
  {
    hide Evaluate, IsIdentifier, Decimal;
    EvaluatePrinted(Comparison(x, op, NumberValue(Int(n))), ctx);
  }
}
