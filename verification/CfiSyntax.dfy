/** Canonical fragment identifiers as text and as syntax: the printer, the tokenizer and the parser.

    Text is a sequence of code points, as `Array.from` iterates it. */
module CfiSyntax {
  import opened Wrappers
  import Decimal

  // ----- Syntax

  /** A number read by `parseInt`; NaN when no digit follows its sign. */
  datatype Number = NaN | Num(n: nat)

  /** One step. The empty string or sequence stands for a field that is not set; `temporal` and `spatial`
      hold the decimal text of their numbers. */
  datatype Part = Part(
    index: Number,
    id: string,
    offset: Option<Number>,
    temporal: string,
    spatial: seq<string>,
    text: seq<string>,
    side: string)

  type Path = seq<Part>

  /** The paths of a point are separated by step indirections. An open range was read from text with a
      single comma, so its end is not set. */
  datatype Cfi =
    | Point(paths: seq<Path>)
    | Range(parent: seq<Path>, start: seq<Path>, end: seq<Path>)
    | OpenRange(parent: seq<Path>, start: seq<Path>)

  predicate Odd(x: Number) {
    x.Num? && x.n % 2 == 1
  }

  // ----- Printing

  predicate Special(c: char) {
    c == '^' || c == '[' || c == ']' || c == '(' || c == ')' || c == ',' || c == ';' || c == '='
  }

  function EscapeChar(c: char): string {
    if Special(c) then ['^', c] else [c]
  }

  function Escape(s: string): string {
    if s == "" then "" else EscapeChar(s[0]) + Escape(s[1..])
  }

  function Join(parts: seq<string>, separator: string): string {
    if parts == [] then ""
    else if |parts| == 1 then parts[0]
    else parts[0] + separator + Join(parts[1..], separator)
  }

  function EscapeAll(texts: seq<string>): seq<string> {
    seq(|texts|, k requires 0 <= k < |texts| => Escape(texts[k]))
  }

  function NumberText(x: Number): string {
    match x
    case NaN => "NaN"
    case Num(n) => Decimal.Text(n)
  }

  /** Whether a number held as decimal text is truthy. */
  predicate Truthy(t: string) {
    t != "" && t != "0" && t != "NaN"
  }

  function Param(p: Part): string {
    if p.side != "" then ";s=" + p.side else ""
  }

  function IdText(p: Part): string {
    if p.id != "" then "[" + Escape(p.id) + Param(p) + "]" else ""
  }

  function OffsetText(p: Part): string {
    if p.offset.Some? && Odd(p.index) then ":" + NumberText(p.offset.value) else ""
  }

  function TemporalText(p: Part): string {
    if Truthy(p.temporal) then "~" + p.temporal else ""
  }

  function SpatialText(p: Part): string {
    if p.spatial != [] then "@" + Join(p.spatial, ":") else ""
  }

  function AssertionText(p: Part): string {
    if p.text != [] || (p.id == "" && p.side != "")
    then "[" + Join(EscapeAll(p.text), ",") + Param(p) + "]"
    else ""
  }

  function PartToString(p: Part): string {
    "/" + NumberText(p.index) + IdText(p) + OffsetText(p) + TemporalText(p) + SpatialText(p) + AssertionText(p)
  }

  function PathToString(path: Path): string {
    if path == [] then "" else PartToString(path[0]) + PathToString(path[1..])
  }

  function PathsToString(paths: seq<Path>): string {
    if paths == [] then ""
    else if |paths| == 1 then PathToString(paths[0])
    else PathToString(paths[0]) + "!" + PathsToString(paths[1..])
  }

  function ToInnerString(c: Cfi): string
    requires !c.OpenRange?
  {
    match c
    case Point(paths) => PathsToString(paths)
    case Range(parent, start, end) => PathsToString(parent) + "," + PathsToString(start) + "," + PathsToString(end)
  }

  const PREFIX := "epubcfi("

  /** The characters a dot in a regular expression does not match. */
  predicate IsLineTerminator(c: char) {
    c == '\n' || c == '\r' || c == '\U{2028}' || c == '\U{2029}'
  }

  predicate IsCfi(s: string) {
    && |s| >= |PREFIX| + 1
    && s[..|PREFIX|] == PREFIX
    && s[|s| - 1] == ')'
    && forall k :: |PREFIX| <= k < |s| - 1 ==> !IsLineTerminator(s[k])
  }

  function Wrap(s: string): string {
    if IsCfi(s) then s else PREFIX + s + ")"
  }

  function Unwrap(s: string): string {
    if IsCfi(s) then s[|PREFIX|..|s| - 1] else s
  }

  function ToString(c: Cfi): string
    requires !c.OpenRange?
  {
    Wrap(ToInnerString(c))
  }

  // ----- Tokens

  datatype Token =
    | Step(n: Number)
    | Offset(n: Number)
    | Temporal(t: string)
    | Spatial(t: string)
    | Bracket(value: string)
    | Parameter(name: string, value: string)
    | Indirection
    | Comma

  datatype State =
    | Idle
    | InIndirection
    | InComma
    | InStep
    | InOffset
    | InTemporal
    | InSpatial
    | InBracket
    | InParameter(name: string)

  /** The four variables of the tokenizer's loop. */
  datatype Scan = Scan(tokens: seq<Token>, state: State, escape: bool, value: string)

  const INITIAL := Scan([], Idle, false, "")

  function ParseInt(digits: string): Number {
    if digits == "" then NaN else Num(Decimal.Value(digits))
  }

  predicate IsFloatChar(c: char) {
    Decimal.IsDigit(c) || c == '.'
  }

  /** The leading run of characters other than dots. */
  function UpToDot(s: string): (t: string)
    ensures t <= s
  {
    if s == "" || s[0] == '.' then "" else [s[0]] + UpToDot(s[1..])
  }

  function StripLeadingZeros(s: string): string {
    if s != "" && s[0] == '0' then StripLeadingZeros(s[1..]) else s
  }

  function StripTrailingZeros(s: string): string {
    if s != "" && s[|s| - 1] == '0' then StripTrailingZeros(s[..|s| - 1]) else s
  }

  /** `parseFloat` of a text of digits and dots, as the decimal text of the number read: whatever follows a
      second dot is ignored, and redundant zeros are dropped. */
  function ParseFloat(s: string): string {
    var whole := UpToDot(s);
    var fraction := if |whole| < |s| then UpToDot(s[|whole| + 1..]) else "";
    if whole + fraction == "" then "NaN" else
    var w := StripLeadingZeros(whole);
    var f := StripTrailingZeros(fraction);
    (if w == "" then "0" else w) + (if f == "" then "" else "." + f)
  }

  predicate IsDelimiter(c: char) {
    c == '/' || c == ':' || c == '~' || c == '@' || c == '[' || c == '!' || c == ','
  }

  function DelimiterState(c: char): State
    requires IsDelimiter(c)
  {
    match c
    case '/' => InStep
    case ':' => InOffset
    case '~' => InTemporal
    case '@' => InSpatial
    case '[' => InBracket
    case '!' => InIndirection
    case _ => InComma
  }

  predicate Is(c: Option<char>, x: char) {
    c == Some(x)
  }

  /** The last statement of the loop: a delimiter outside brackets opens its state. */
  function Open(s: Scan, c: Option<char>): Scan {
    if c.Some? && IsDelimiter(c.value) then s.(state := DelimiterState(c.value)) else s
  }

  function Push(s: Scan, t: Token): Scan {
    s.(tokens := s.tokens + [t], state := Idle, value := "")
  }

  function Cat(s: Scan, c: Option<char>): Scan {
    s.(value := s.value + (if c.Some? then [c.value] else ""), escape := false)
  }

  /** One turn of the loop; no character stands for the empty string that ends the input. */
  function Next(s: Scan, c: Option<char>): Scan {
    if Is(c, '^') && !s.escape then s.(escape := true)
    else match s.state
      case Idle => Open(s, c)
      case InIndirection => Open(Push(s, Indirection), c)
      case InComma => Open(Push(s, Comma), c)
      case InStep =>
        if c.Some? && Decimal.IsDigit(c.value) then Cat(s, c) else Open(Push(s, Step(ParseInt(s.value))), c)
      case InOffset =>
        if c.Some? && Decimal.IsDigit(c.value) then Cat(s, c) else Open(Push(s, Offset(ParseInt(s.value))), c)
      case InTemporal =>
        if c.Some? && IsFloatChar(c.value) then Cat(s, c) else Open(Push(s, Temporal(ParseFloat(s.value))), c)
      case InSpatial =>
        if Is(c, ':') then Push(s, Spatial(ParseFloat(s.value))).(state := InSpatial)
        else if c.Some? && IsFloatChar(c.value) then Cat(s, c)
        else Open(Push(s, Spatial(ParseFloat(s.value))), c)
      case InBracket =>
        if Is(c, ';') && !s.escape then Push(s, Bracket(s.value)).(state := InParameter(""))
        else if Is(c, ',') && !s.escape then Push(s, Bracket(s.value)).(state := InBracket)
        else if Is(c, ']') && !s.escape then Push(s, Bracket(s.value))
        else Cat(s, c)
      case InParameter(name) =>
        if Is(c, '=') && !s.escape then s.(state := InParameter(s.value), value := "")
        else if Is(c, ';') && !s.escape then Push(s, Parameter(name, s.value)).(state := InParameter(""))
        else if Is(c, ']') && !s.escape then Push(s, Parameter(name, s.value))
        else Cat(s, c)
  }

  function Run(s: Scan, text: string): Scan
    decreases text
  {
    if text == "" then s else Run(Next(s, Some(text[0])), text[1..])
  }

  predicate IsSpace(c: char) {
    || c == ' ' || '\t' <= c <= '\r' || c == '\U{A0}' || c == '\U{1680}' || '\U{2000}' <= c <= '\U{200A}'
    || c == '\U{2028}' || c == '\U{2029}' || c == '\U{202F}' || c == '\U{205F}' || c == '\U{3000}' || c == '\U{FEFF}'
  }

  function Trim(s: string): string {
    if s != "" && IsSpace(s[0]) then Trim(s[1..])
    else if s != "" && IsSpace(s[|s| - 1]) then Trim(s[..|s| - 1])
    else s
  }

  function Tokens(s: string): seq<Token> {
    Next(Run(INITIAL, Trim(s)), None).tokens
  }

  lemma {:induction false} RunAppend(s: Scan, a: string, b: string)
    ensures Run(s, a + b) == Run(Run(s, a), b)
    decreases a
  {
    if a == "" {
      assert a + b == b;
    } else {
      assert (a + b)[1..] == a[1..] + b;
      RunAppend(Next(s, Some(a[0])), a[1..], b);
    }
  }

  /** The loop over the characters of the trimmed text and a final empty string. */
  method Tokenizer(str: string) returns (tokens: seq<Token>)
    ensures tokens == Tokens(str)
  {
    tokens := [];
    var state, escape, value := Idle, false, "";
    var chars := Trim(str);
    for i := 0 to |chars| + 1
      invariant i <= |chars| ==> Scan(tokens, state, escape, value) == Run(INITIAL, chars[..i])
      invariant i == |chars| + 1 ==> tokens == Tokens(str)
    {
      var c := if i < |chars| then Some(chars[i]) else None;
      ghost var before := Scan(tokens, state, escape, value);
      if i < |chars| {
        RunAppend(INITIAL, chars[..i], [chars[i]]);
        assert chars[..i + 1] == chars[..i] + [chars[i]];
        assert Run(before, [chars[i]]) == Next(before, c);
      } else {
        assert chars[..i] == chars;
      }
      if Is(c, '^') && !escape {
        escape := true;
        continue;
      }
      if state == InIndirection {
        tokens, state, value := tokens + [Indirection], Idle, "";
      } else if state == InComma {
        tokens, state, value := tokens + [Comma], Idle, "";
      } else if state == InStep || state == InOffset {
        if c.Some? && Decimal.IsDigit(c.value) {
          value, escape := value + [c.value], false;
          continue;
        }
        var n := ParseInt(value);
        tokens, state, value := tokens + [if state == InStep then Step(n) else Offset(n)], Idle, "";
      } else if state == InTemporal {
        if c.Some? && IsFloatChar(c.value) {
          value, escape := value + [c.value], false;
          continue;
        }
        tokens, state, value := tokens + [Temporal(ParseFloat(value))], Idle, "";
      } else if state == InSpatial {
        if Is(c, ':') {
          tokens, state, value := tokens + [Spatial(ParseFloat(value))], InSpatial, "";
          continue;
        }
        if c.Some? && IsFloatChar(c.value) {
          value, escape := value + [c.value], false;
          continue;
        }
        tokens, state, value := tokens + [Spatial(ParseFloat(value))], Idle, "";
      } else if state == InBracket {
        if Is(c, ';') && !escape {
          tokens, state, value := tokens + [Bracket(value)], InParameter(""), "";
        } else if Is(c, ',') && !escape {
          tokens, value := tokens + [Bracket(value)], "";
        } else if Is(c, ']') && !escape {
          tokens, state, value := tokens + [Bracket(value)], Idle, "";
        } else {
          value, escape := value + (if c.Some? then [c.value] else ""), false;
        }
        continue;
      } else if state.InParameter? {
        if Is(c, '=') && !escape {
          state, value := InParameter(value), "";
        } else if Is(c, ';') && !escape {
          tokens, state, value := tokens + [Parameter(state.name, value)], InParameter(""), "";
        } else if Is(c, ']') && !escape {
          tokens, state, value := tokens + [Parameter(state.name, value)], Idle, "";
        } else {
          value, escape := value + (if c.Some? then [c.value] else ""), false;
        }
        continue;
      }
      if c.Some? && IsDelimiter(c.value) {
        state := DelimiterState(c.value);
      }
    }
  }

  // ----- Parsing

  /** The variables of the parser's loop: the parts read, and whether the last token was a step. */
  datatype Reading = Reading(parts: Path, afterStep: bool)

  /** One turn of the loop. Setting a field of the last part throws when there is none. */
  function Read(r: Reading, t: Token): Result<Reading> {
    if t.Step? then Success(Reading(r.parts + [Part(t.n, "", None, "", [], [], "")], true))
    else if t.Indirection? || t.Comma? || (t.Parameter? && t.name != "s") then Success(r.(afterStep := false))
    else if r.parts == [] then Thrown
    else
      var last := r.parts[|r.parts| - 1];
      var rest := r.parts[..|r.parts| - 1];
      match t
      case Offset(n) => Success(Reading(rest + [last.(offset := Some(n))], false))
      case Temporal(x) => Success(Reading(rest + [last.(temporal := x)], false))
      case Spatial(x) => Success(Reading(rest + [last.(spatial := last.spatial + [x])], false))
      case Parameter(_, side) => Success(Reading(rest + [last.(side := side)], false))
      case Bracket(value) =>
        if r.afterStep && value != "" then Success(Reading(rest + [last.(id := value)], false))
        else Success(Reading(rest + [last.(text := last.text + [value])], r.afterStep))
  }

  function ReadAll(r: Reading, tokens: seq<Token>): Result<Reading>
    decreases tokens
  {
    if tokens == [] then Success(r) else
    var next :- Read(r, tokens[0]);
    ReadAll(next, tokens[1..])
  }

  function ParsePath(tokens: seq<Token>): Result<Path> {
    var r :- ReadAll(Reading([], false), tokens);
    Success(r.parts)
  }

  lemma {:induction false} ReadAllAppend(r: Reading, a: seq<Token>, b: seq<Token>)
    ensures ReadAll(r, a + b) == (if ReadAll(r, a).Thrown? then Thrown else ReadAll(ReadAll(r, a).value, b))
    decreases a
  {
    if a == [] {
      assert a + b == b;
    } else {
      assert (a + b)[0] == a[0] && (a + b)[1..] == a[1..] + b;
      if Read(r, a[0]).Success? {
        ReadAllAppend(Read(r, a[0]).value, a[1..], b);
      }
    }
  }

  method Parser(tokens: seq<Token>) returns (path: Result<Path>)
    ensures path == ParsePath(tokens)
  {
    var parts, afterStep := [], false;
    for i := 0 to |tokens|
      invariant ReadAll(Reading([], false), tokens[..i]) == Success(Reading(parts, afterStep))
    {
      var token := tokens[i];
      assert tokens[..i + 1] == tokens[..i] + [token];
      ReadAllAppend(Reading([], false), tokens[..i], [token]);
      assert ReadAll(Reading(parts, afterStep), [token]) == Read(Reading(parts, afterStep), token);
      if token.Step? {
        parts := parts + [Part(token.n, "", None, "", [], [], "")];
      } else {
        var touches := !token.Indirection? && !token.Comma? && (token.Parameter? ==> token.name == "s");
        if touches {
          if parts == [] {
            ReadAllAppend(Reading([], false), tokens[..i + 1], tokens[i + 1..]);
            assert tokens == tokens[..i + 1] + tokens[i + 1..];
            return Thrown;
          }
          var k := |parts| - 1;
          var last := parts[k];
          if token.Offset? {
            last := last.(offset := Some(token.n));
          } else if token.Temporal? {
            last := last.(temporal := token.t);
          } else if token.Spatial? {
            last := last.(spatial := last.spatial + [token.t]);
          } else if token.Parameter? {
            last := last.(side := token.value);
          } else if afterStep && token.value != "" {
            last := last.(id := token.value);
          } else {
            parts := parts[..k] + [last.(text := last.text + [token.value])];
            continue;
          }
          parts := parts[..k] + [last];
        }
      }
      afterStep := token.Step?;
    }
    assert tokens[..|tokens|] == tokens;
    path := Success(parts);
  }

  /** The runs of tokens between the occurrences of a separator. */
  function Split(tokens: seq<Token>, separator: Token): (runs: seq<seq<Token>>)
    ensures runs != []
  {
    if tokens == [] then [[]] else
    var rest := Split(tokens[1..], separator);
    if tokens[0] == separator then [[]] + rest else [[tokens[0]] + rest[0]] + rest[1..]
  }

  function ParseRuns(runs: seq<seq<Token>>): (r: Result<seq<Path>>)
    ensures r.Success? ==> |r.value| == |runs|
  {
    if runs == [] then Success([]) else
    var path :- ParsePath(runs[0]);
    var paths :- ParseRuns(runs[1..]);
    Success([path] + paths)
  }

  function ParsePaths(tokens: seq<Token>): (r: Result<seq<Path>>)
    ensures r.Success? ==> r.value != []
  {
    ParseRuns(Split(tokens, Indirection))
  }

  /** Commas separate the parent path, the start and the end; anything after a third comma is read and dropped. */
  function Parse(cfi: string): Result<Cfi> {
    var runs := Split(Tokens(Unwrap(cfi)), Comma);
    var parsed :- ParseAll(runs);
    match |runs|
    case 1 => Success(Point(parsed[0]))
    case 2 => Success(OpenRange(parsed[0], parsed[1]))
    case _ => Success(Range(parsed[0], parsed[1], parsed[2]))
  }

  function ParseAll(runs: seq<seq<Token>>): (r: Result<seq<seq<Path>>>)
    ensures r.Success? ==> |r.value| == |runs|
  {
    if runs == [] then Success([]) else
    var paths :- ParsePaths(runs[0]);
    var rest :- ParseAll(runs[1..]);
    Success([paths] + rest)
  }
}
