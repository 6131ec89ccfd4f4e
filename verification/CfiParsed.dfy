/** Whatever the parser returns holds its numbers in canonical form. */
module CfiParsed {
  import opened Wrappers
  import opened CfiSyntax
  import opened CfiPrintable
  import Decimal

  // ----- The number texts that parseFloat returns

  predicate Floats(s: string) {
    forall k :: 0 <= k < |s| ==> IsFloatChar(s[k])
  }

  lemma {:induction false} UpToDotIsDigits(s: string)
    requires Floats(s)
    ensures Decimal.AllDigits(UpToDot(s))
    decreases |s|
  {
    if s != "" && s[0] != '.' {
      assert Floats(s[1..]);
      UpToDotIsDigits(s[1..]);
    }
  }

  lemma {:induction false} UpToDotStops(d: string, rest: string)
    requires Decimal.AllDigits(d) && (rest == "" || rest[0] == '.')
    ensures UpToDot(d + rest) == d
    decreases |d|
  {
    if d == "" {
      assert d + rest == rest;
    } else {
      assert (d + rest)[1..] == d[1..] + rest;
      UpToDotStops(d[1..], rest);
    }
  }

  lemma {:induction false} LeadingZerosStripped(s: string)
    requires Decimal.AllDigits(s)
    ensures var t := StripLeadingZeros(s); Decimal.AllDigits(t) && (t == "" || t[0] != '0')
    decreases |s|
  {
    if s != "" && s[0] == '0' {
      LeadingZerosStripped(s[1..]);
    }
  }

  lemma {:induction false} TrailingZerosStripped(s: string)
    requires Decimal.AllDigits(s)
    ensures var t := StripTrailingZeros(s); Decimal.AllDigits(t) && (t == "" || t[|t| - 1] != '0')
    decreases |s|
  {
    if s != "" && s[|s| - 1] == '0' {
      TrailingZerosStripped(s[..|s| - 1]);
    }
  }

  function Decimals(f: string): string {
    if f == "" then "" else "." + f
  }

  lemma DotSplits(whole: string, f: string)
    requires Decimal.AllDigits(whole) && Decimal.AllDigits(f)
    ensures var t := whole + Decimals(f);
            && UpToDot(t) == whole && Floats(t)
            && (if f == "" then |whole| == |t| else |whole| < |t| && UpToDot(t[|whole| + 1..]) == f)
  {
    hide UpToDot;
    var t := whole + Decimals(f);
    UpToDotStops(whole, Decimals(f));
    if f != "" {
      assert t[|whole| + 1..] == f && f + "" == f;
      UpToDotStops(f, "");
    }
  }

  lemma NothingToStrip(whole: string, f: string)
    requires (whole == "0" || (whole != "" && whole[0] != '0')) && (f == "" || f[|f| - 1] != '0')
    ensures var w := StripLeadingZeros(whole); (if w == "" then "0" else w) == whole
    ensures StripTrailingZeros(f) == f
  {
    if whole == "0" {
      assert StripLeadingZeros("0") == StripLeadingZeros("0"[1..]) == "";
    }
  }

  /** A whole part without leading zeros, and a fraction without trailing ones, read back as themselves. */
  lemma StrippedIsNumeral(whole: string, f: string)
    requires Decimal.AllDigits(whole) && Decimal.AllDigits(f)
    requires (whole == "0" || (whole != "" && whole[0] != '0')) && (f == "" || f[|f| - 1] != '0')
    ensures Numeral(whole + Decimals(f))
  {
    hide UpToDot, StripLeadingZeros, StripTrailingZeros, Floats;
    DotSplits(whole, f);
    NothingToStrip(whole, f);
    FloatsAreFloatChars(whole + Decimals(f));
  }

  lemma FloatsAreFloatChars(s: string)
    ensures Floats(s) <==> forall k :: 0 <= k < |s| ==> IsFloatChar(s[k])
  {
  }

  lemma ParseFloatIsCanonical(s: string)
    requires Floats(s)
    ensures NumeralOrNaN(ParseFloat(s))
  {
    hide UpToDot, StripLeadingZeros, StripTrailingZeros, Numeral;
    var whole := UpToDot(s);
    var fraction := if |whole| < |s| then UpToDot(s[|whole| + 1..]) else "";
    UpToDotIsDigits(s);
    if |whole| < |s| {
      UpToDotIsDigits(s[|whole| + 1..]);
    }
    LeadingZerosStripped(whole);
    TrailingZerosStripped(fraction);
    var w := StripLeadingZeros(whole);
    StrippedIsNumeral(if w == "" then "0" else w, StripTrailingZeros(fraction));
  }

  lemma {:induction false} LeadingZerosKeepValue(s: string)
    requires Decimal.AllDigits(s)
    ensures Decimal.Value(StripLeadingZeros(s)) == Decimal.Value(s)
    decreases |s|
  {
    hide Decimal.Value;
    if s != "" && s[0] == '0' {
      Decimal.ValueWithoutZero(s);
      LeadingZerosKeepValue(s[1..]);
    }
  }

  lemma {:induction false} TrailingZerosAreZeros(s: string)
    ensures StripTrailingZeros(s) <= s && forall k :: |StripTrailingZeros(s)| <= k < |s| ==> s[k] == '0'
    decreases |s|
  {
    if s != "" && s[|s| - 1] == '0' {
      TrailingZerosAreZeros(s[..|s| - 1]);
    }
  }

  /** The number that is read from digits, perhaps a point and more digits, and perhaps a further point and anything: the whole
      part by its value, the fraction without the zeros at its end. */
  lemma NumberIsRead(whole: string, fraction: string, rest: string) returns (f: string)
    requires Decimal.AllDigits(whole) && Decimal.AllDigits(fraction) && whole + fraction != ""
    requires rest == "" || rest[0] == '.'
    ensures f <= fraction && (f != "" ==> f[|f| - 1] != '0') && forall k :: |f| <= k < |fraction| ==> fraction[k] == '0'
    ensures ParseFloat(whole + "." + fraction + rest) == Decimal.Text(Decimal.Value(whole)) + (if f == "" then "" else "." + f)
    ensures fraction == "" ==> ParseFloat(whole) == Decimal.Text(Decimal.Value(whole))
  {
    hide UpToDot, StripLeadingZeros, StripTrailingZeros, Decimal.Text, Decimal.Value;
    f := StripTrailingZeros(fraction);
    TrailingZerosAreZeros(fraction);
    TrailingZerosStripped(fraction);
    PiecesOfNumber(whole, fraction, rest);
    WholeByValue(whole);
    NoFraction();
  }

  lemma PiecesOfNumber(whole: string, fraction: string, rest: string)
    requires Decimal.AllDigits(whole) && Decimal.AllDigits(fraction) && (rest == "" || rest[0] == '.')
    ensures var s := whole + "." + fraction + rest;
            UpToDot(s) == whole && |whole| < |s| && UpToDot(s[|whole| + 1..]) == fraction
    ensures UpToDot(whole) == whole
  {
    hide UpToDot;
    var s := whole + "." + fraction + rest;
    assert s == whole + ("." + fraction + rest) && s[|whole| + 1..] == fraction + rest;
    UpToDotStops(whole, "." + fraction + rest);
    UpToDotStops(fraction, rest);
    UpToDotStops(whole, "");
    assert whole + "" == whole;
  }

  lemma NoFraction()
    ensures StripTrailingZeros("") == ""
  {
  }

  lemma WholeByValue(whole: string)
    requires Decimal.AllDigits(whole)
    ensures var w := StripLeadingZeros(whole); (if w == "" then "0" else w) == Decimal.Text(Decimal.Value(whole))
  {
    hide StripLeadingZeros, Decimal.Text, Decimal.Value;
    var w := StripLeadingZeros(whole);
    LeadingZerosKeepValue(whole);
    LeadingZerosStripped(whole);
    if w != "" {
      Decimal.TextOfValue(w);
    } else {
      ZeroText();
    }
  }

  lemma ZeroText()
    ensures Decimal.Value("") == 0 && Decimal.Text(0) == "0"
  {
  }

  /** Nothing else is a number: dots alone are none, and a number is falsy exactly when it is zero or none. */
  lemma TruthyIff(t: string)
    requires NumeralOrNaN(t)
    ensures Truthy(t) <==> t != "NaN" && exists k :: 0 <= k < |t| && '1' <= t[k] <= '9'
  {
    hide UpToDot, StripLeadingZeros, StripTrailingZeros;
    if t != "NaN" && !exists k :: 0 <= k < |t| && '1' <= t[k] <= '9' {
      var whole := UpToDot(t);
      DigitsUpToDot(t);
      ZerosAreStripped(whole);
      if |whole| < |t| {
        DigitsUpToDot(t[|whole| + 1..]);
        ZerosAreStripped(UpToDot(t[|whole| + 1..]));
      }
      NoFraction();
    }
  }

  lemma {:induction false} DigitsUpToDot(t: string)
    requires forall k :: 0 <= k < |t| ==> t[k] == '0' || t[k] == '.'
    ensures forall k :: 0 <= k < |UpToDot(t)| ==> UpToDot(t)[k] == '0'
    decreases |t|
  {
    if t != "" {
      DigitsUpToDot(t[1..]);
    }
  }

  lemma {:induction false} ZerosAreStripped(s: string)
    requires forall k :: 0 <= k < |s| ==> s[k] == '0'
    ensures StripLeadingZeros(s) == "" && StripTrailingZeros(s) == ""
    decreases |s|
  {
    if s != "" {
      ZerosAreStripped(s[1..]);
      ZerosAreStripped(s[..|s| - 1]);
    }
  }

  // ----- Tokens

  predicate CanonicalToken(t: Token) {
    (t.Temporal? || t.Spatial?) ==> NumeralOrNaN(t.t)
  }

  predicate CanonicalTokens(tokens: seq<Token>) {
    forall k :: 0 <= k < |tokens| ==> CanonicalToken(tokens[k])
  }

  /** Outside brackets, only digits and dots are collected, and only for a number. */
  predicate CanonicalScan(s: Scan) {
    && CanonicalTokens(s.tokens)
    && (s.state.Idle? || s.state.InIndirection? || s.state.InComma? ==> s.value == "")
    && (s.state.InTemporal? || s.state.InSpatial? ==> Floats(s.value))
  }

  lemma NextIsCanonical(s: Scan, c: Option<char>)
    requires CanonicalScan(s)
    ensures CanonicalScan(Next(s, c))
  {
    hide ParseFloat, NumeralOrNaN;
    if s.state.InTemporal? || s.state.InSpatial? {
      ParseFloatIsCanonical(s.value);
    }
  }

  lemma {:induction false} RunIsCanonical(s: Scan, text: string)
    requires CanonicalScan(s)
    ensures CanonicalScan(Run(s, text))
    decreases text
  {
    hide Next, CanonicalScan;
    if text != "" {
      NextIsCanonical(s, Some(text[0]));
      RunIsCanonical(Next(s, Some(text[0])), text[1..]);
    }
  }

  lemma TokensAreCanonical(s: string)
    ensures CanonicalTokens(Tokens(s))
  {
    hide Next, Run, Trim;
    assert CanonicalScan(INITIAL);
    RunIsCanonical(INITIAL, Trim(s));
    NextIsCanonical(Run(INITIAL, Trim(s)), None);
  }

  // ----- Parts

  type TokenTest = Token -> bool
  type PartTest = Part -> bool

  ghost predicate Holds(path: Path, good: PartTest) {
    forall k :: 0 <= k < |path| ==> good(path[k])
  }

  ghost predicate HoldsInAll(paths: seq<Path>, good: PartTest) {
    forall k :: 0 <= k < |paths| ==> Holds(paths[k], good)
  }

  ghost predicate HoldsIn(c: Cfi, good: PartTest) {
    match c
    case Point(paths) => paths != [] && HoldsInAll(paths, good)
    case Range(parent, start, end) =>
      && parent != [] && HoldsInAll(parent, good)
      && start != [] && HoldsInAll(start, good)
      && end != [] && HoldsInAll(end, good)
    case OpenRange(_, _) => false
  }

  predicate Pass(tokens: seq<Token>, ok: TokenTest) {
    forall k :: 0 <= k < |tokens| ==> ok(tokens[k])
  }

  ghost predicate RunsPass(runs: seq<seq<Token>>, ok: TokenTest) {
    forall k :: 0 <= k < |runs| ==> Pass(runs[k], ok)
  }

  /** Reading a token that passes keeps what holds of the parts. */
  ghost predicate Keeps(ok: TokenTest, good: PartTest) {
    forall r: Reading, t: Token :: Holds(r.parts, good) && ok(t) && Read(r, t).Success? ==> Holds(Read(r, t).value.parts, good)
  }

  lemma {:induction false} ReadAllKeeps(r: Reading, tokens: seq<Token>, ok: TokenTest, good: PartTest)
    requires Keeps(ok, good) && Holds(r.parts, good) && Pass(tokens, ok) && ReadAll(r, tokens).Success?
    ensures Holds(ReadAll(r, tokens).value.parts, good)
    decreases tokens
  {
    hide Read, Holds;
    if tokens != [] {
      assert ok(tokens[0]);
      ReadAllKeeps(Read(r, tokens[0]).value, tokens[1..], ok, good);
    }
  }

  lemma {:induction false} SplitPasses(tokens: seq<Token>, separator: Token, ok: TokenTest)
    requires Pass(tokens, ok)
    ensures RunsPass(Split(tokens, separator), ok)
    decreases tokens
  {
    if tokens != [] {
      SplitPasses(tokens[1..], separator, ok);
      var rest := Split(tokens[1..], separator);
      assert Pass([tokens[0]] + rest[0], ok);
    }
  }

  lemma {:induction false} ParseRunsKeeps(runs: seq<seq<Token>>, ok: TokenTest, good: PartTest)
    requires Keeps(ok, good) && RunsPass(runs, ok) && ParseRuns(runs).Success?
    ensures HoldsInAll(ParseRuns(runs).value, good)
    decreases |runs|
  {
    hide Pass, ReadAll, Keeps;
    if runs != [] {
      ReadAllKeeps(Reading([], false), runs[0], ok, good);
      ParseRunsKeeps(runs[1..], ok, good);
    }
  }

  lemma {:induction false} ParseAllKeeps(runs: seq<seq<Token>>, ok: TokenTest, good: PartTest)
    requires Keeps(ok, good) && RunsPass(runs, ok) && ParseAll(runs).Success?
    ensures forall k :: 0 <= k < |runs| ==> ParseAll(runs).value[k] != [] && HoldsInAll(ParseAll(runs).value[k], good)
    decreases |runs|
  {
    hide Pass, HoldsInAll, ParseRuns, Keeps;
    if runs != [] {
      assert Pass(runs[0], ok);
      SplitPasses(runs[0], Indirection, ok);
      ParseRunsKeeps(Split(runs[0], Indirection), ok, good);
      ParseAllKeeps(runs[1..], ok, good);
    }
  }

  /** What holds of every part that can be read from tokens that pass holds of everything parsed from them. */
  lemma ParseKeeps(text: string, ok: TokenTest, good: PartTest)
    requires Keeps(ok, good) && Pass(Tokens(Unwrap(text)), ok)
    requires Parse(text).Success? && !Parse(text).value.OpenRange?
    ensures HoldsIn(Parse(text).value, good)
  {
    hide Tokens, Split, ParseAll, Pass, HoldsInAll, Unwrap, Keeps;
    var tokens := Tokens(Unwrap(text));
    SplitPasses(tokens, Comma, ok);
    ParseAllKeeps(Split(tokens, Comma), ok, good);
  }

  lemma NumbersStayCanonical()
    ensures Keeps(CanonicalToken, Canonical)
  {
    hide NumeralOrNaN;
    forall r: Reading, t: Token | Holds(r.parts, Canonical) && CanonicalToken(t) && Read(r, t).Success?
      ensures Holds(Read(r, t).value.parts, Canonical)
    {
      ReadIsCanonical(r, t);
    }
  }

  lemma ReadIsCanonical(r: Reading, t: Token)
    requires Holds(r.parts, Canonical) && CanonicalToken(t) && Read(r, t).Success?
    ensures Holds(Read(r, t).value.parts, Canonical)
  {
    hide NumeralOrNaN;
    assert r.parts != [] ==> Canonical(r.parts[|r.parts| - 1]);
    var parts := Read(r, t).value.parts;
    forall k | 0 <= k < |parts|
      ensures Canonical(parts[k])
    {
      assert k < |r.parts| ==> Canonical(r.parts[k]);
    }
  }

  lemma HeldIsCanonical(paths: seq<Path>)
    ensures HoldsInAll(paths, Canonical) <==> CanonicalPaths(paths)
  {
    hide NumeralOrNaN;
    forall k | 0 <= k < |paths|
      ensures Holds(paths[k], Canonical) <==> CanonicalPath(paths[k])
    {
    }
  }

  /** Every identifier that the parser returns has canonical numbers, whatever the text. */
  lemma ParsedIsCanonical(text: string)
    requires Parse(text).Success? && !Parse(text).value.OpenRange?
    ensures CanonicalCfi(Parse(text).value)
  {
    hide Tokens, Parse, HoldsInAll, CanonicalPaths, Unwrap, Keeps;
    var tokens := Tokens(Unwrap(text));
    TokensAreCanonical(Unwrap(text));
    assert Pass(tokens, CanonicalToken);
    NumbersStayCanonical();
    ParseKeeps(text, CanonicalToken, Canonical);
    match Parse(text).value
    case Point(paths) => HeldIsCanonical(paths);
    case Range(parent, start, end) =>
      HeldIsCanonical(parent);
      HeldIsCanonical(start);
      HeldIsCanonical(end);
  }
}
