/** What any text is read as: its lexemes, which need not be printed ones, and the parts that runs of tokens make. */
module CfiReading {
  import opened Wrappers
  import opened CfiSyntax
  import opened CfiPrintable
  import opened CfiScan
  import Decimal

  // ----- Lexemes

  /** The pieces of an identifier, with the characters after them that mean nothing. */
  datatype Lexeme =
    | Counted(isStep: bool, digits: string)
    | Timed(digits: string)
    | Placed(places: seq<string>)
    | Separator(isComma: bool)
    | Assertion(texts: seq<string>, parameters: seq<(string, string)>)

  datatype Item = Item(lexeme: Lexeme, junk: string)

  predicate AreFloatChars(s: string) {
    forall k :: 0 <= k < |s| ==> IsFloatChar(s[k])
  }

  predicate IsLexeme(l: Lexeme) {
    match l
    case Counted(_, digits) => Decimal.AllDigits(digits)
    case Timed(digits) => AreFloatChars(digits)
    case Placed(places) => places != [] && forall k :: 0 <= k < |places| ==> AreFloatChars(places[k])
    case Separator(_) => true
    case Assertion(texts, _) => texts != []
  }

  function Parameters(ps: seq<(string, string)>): string {
    if ps == [] then "" else ";" + Escape(ps[0].0) + "=" + Escape(ps[0].1) + Parameters(ps[1..])
  }

  function Spelling(l: Lexeme): string {
    match l
    case Counted(isStep, digits) => [if isStep then '/' else ':'] + digits
    case Timed(digits) => "~" + digits
    case Placed(places) => "@" + Join(places, ":")
    case Separator(isComma) => if isComma then "," else "!"
    case Assertion(texts, parameters) => "[" + Join(EscapeAll(texts), ",") + Parameters(parameters) + "]"
  }

  function ParameterTokens(ps: seq<(string, string)>): seq<Token> {
    if ps == [] then [] else [Parameter(ps[0].0, ps[0].1)] + ParameterTokens(ps[1..])
  }

  function PlaceTokens(places: seq<string>): seq<Token> {
    if places == [] then [] else [Spatial(ParseFloat(places[0]))] + PlaceTokens(places[1..])
  }

  /** An index or offset is the number that its digits are; a time or place is that of the digits up to a second dot. */
  function Meaning(l: Lexeme): seq<Token> {
    match l
    case Counted(isStep, digits) =>
      var n := if digits == "" then NaN else Num(Decimal.Value(digits));
      [if isStep then Step(n) else Offset(n)]
    case Timed(digits) => [Temporal(ParseFloat(digits))]
    case Placed(places) => PlaceTokens(places)
    case Separator(isComma) => [if isComma then Comma else Indirection]
    case Assertion(texts, parameters) => Brackets(texts) + ParameterTokens(parameters)
  }

  /** Characters that belong to no lexeme, and are not taken for more of the one before them. */
  predicate IsJunk(l: Lexeme, junk: string) {
    && (forall k :: 0 <= k < |junk| ==> !IsDelimiter(junk[k]) && junk[k] != '^')
    && (l.Counted? && junk != "" ==> !Decimal.IsDigit(junk[0]))
    && ((l.Timed? || l.Placed?) && junk != "" ==> !IsFloatChar(junk[0]))
  }

  /** A colon right after a place would begin a further place. */
  predicate AreItems(items: seq<Item>) {
    && (forall k :: 0 <= k < |items| ==> IsLexeme(items[k].lexeme) && IsJunk(items[k].lexeme, items[k].junk))
    && forall k :: 0 < k < |items| ==> !RunsOn(items[k - 1], items[k].lexeme)
  }

  predicate RunsOn(before: Item, l: Lexeme) {
    before.lexeme.Placed? && before.junk == "" && l.Counted? && !l.isStep
  }

  function Spelled(items: seq<Item>): string {
    if items == [] then "" else Spelling(items[0].lexeme) + items[0].junk + Spelled(items[1..])
  }

  function Meant(items: seq<Item>): seq<Token> {
    if items == [] then [] else Meaning(items[0].lexeme) + Meant(items[1..])
  }

  // ----- Scanning them

  lemma CountedScan(s: Scan, isStep: bool, digits: string)
    requires Settled(s) && (s.state.InSpatial? ==> isStep) && Decimal.AllDigits(digits)
    ensures Run(s, Spelling(Counted(isStep, digits))) ==
            Scan(Settle(s), if isStep then InStep else InOffset, false, digits)
  {
    hide Next;
    var c := if isStep then '/' else ':';
    Delimit(s, c);
    RunOne(s, c);
    RunAppend(s, [c], digits);
    DigitsScan(Scan(Settle(s), if isStep then InStep else InOffset, false, ""), digits);
    assert "" + digits == digits;
  }

  lemma TimedScan(s: Scan, digits: string)
    requires Settled(s) && AreFloatChars(digits)
    ensures Run(s, Spelling(Timed(digits))) == Scan(Settle(s), InTemporal, false, digits)
  {
    hide Next;
    Delimit(s, '~');
    RunOne(s, '~');
    RunAppend(s, "~", digits);
    FloatScan(Scan(Settle(s), InTemporal, false, ""), digits);
    assert "" + digits == digits;
  }

  /** One place and the colon after it. */
  lemma PlaceHead(s: Scan, place: string, more: string)
    requires s.state.InSpatial? && !s.escape && s.value == "" && AreFloatChars(place)
    ensures Run(s, place + ":" + more) == Run(Scan(s.tokens + [Spatial(ParseFloat(place))], InSpatial, false, ""), more)
  {
    hide Next;
    var collected := s.(value := place);
    assert "" + place == place;
    FloatScan(s, place);
    SpatialColon(collected);
    RunOne(collected, ':');
    RunAppend(s, place, ":");
    RunAppend(s, place + ":", more);
  }

  lemma LastPlace(s: Scan, place: string)
    requires s.state.InSpatial? && !s.escape && s.value == "" && AreFloatChars(place)
    ensures Run(s, place) == s.(value := place)
    ensures PlaceTokens([place]) == [Spatial(ParseFloat(place))]
  {
    hide Next, ParseFloat;
    assert "" + place == place;
    FloatScan(s, place);
  }

  lemma JoinPlaces(places: seq<string>)
    requires |places| > 1
    ensures Join(places, ":") == places[0] + ":" + Join(places[1..], ":")
  {
  }

  lemma FirstPlace(places: seq<string>)
    requires places != []
    ensures PlaceTokens(places) == [Spatial(ParseFloat(places[0]))] + PlaceTokens(places[1..])
  {
    hide ParseFloat;
  }

  lemma RegroupTokens(a: seq<Token>, b: seq<Token>, c: seq<Token>)
    ensures a + b + c == a + (b + c)
  {
  }

  lemma {:induction false} PlacesScan(s: Scan, places: seq<string>)
    requires s.state.InSpatial? && !s.escape && s.value == ""
    requires places != [] && forall k :: 0 <= k < |places| ==> AreFloatChars(places[k])
    ensures var r := Run(s, Join(places, ":"));
            && r.state.InSpatial? && !r.escape
            && r.tokens + [Spatial(ParseFloat(r.value))] == s.tokens + PlaceTokens(places)
    decreases |places|
  {
    hide Next, Run, ParseFloat, AreFloatChars, PlaceTokens;
    if |places| == 1 {
      assert places == [places[0]];
      LastPlace(s, places[0]);
    } else {
      hide Join;
      JoinPlaces(places);
      FirstPlace(places);
      RegroupTokens(s.tokens, [Spatial(ParseFloat(places[0]))], PlaceTokens(places[1..]));
      PlaceHead(s, places[0], Join(places[1..], ":"));
      PlacesScan(Scan(s.tokens + [Spatial(ParseFloat(places[0]))], InSpatial, false, ""), places[1..]);
    }
  }

  lemma PlacedScan(s: Scan, places: seq<string>)
    requires Settled(s) && IsLexeme(Placed(places))
    ensures var r := Run(s, Spelling(Placed(places)));
            Settled(r) && r.state.InSpatial? && Settle(r) == Settle(s) + PlaceTokens(places)
  {
    hide Next, Run, Join, PlaceTokens, ParseFloat, AreFloatChars;
    Delimit(s, '@');
    RunOne(s, '@');
    RunAppend(s, "@", Join(places, ":"));
    PlacesScan(Scan(Settle(s), InSpatial, false, ""), places);
  }

  /** A parameter, from its semicolon up to what ends it. */
  lemma ParameterScan(s: Scan, name: string, value: string)
    requires s.state.InParameter? && s.state.name == "" && !s.escape && s.value == ""
    ensures Run(s, Escape(name) + "=" + Escape(value)) == Scan(s.tokens, InParameter(name), false, value)
  {
    hide Next;
    assert "" + name == name && "" + value == value;
    EscapeScan(s, name);
    var named := s.(value := name);
    EqualsScan(named);
    RunOne(named, '=');
    RunAppend(s, Escape(name), "=");
    RunAppend(s, Escape(name) + "=", Escape(value));
    EscapeScan(Scan(s.tokens, InParameter(name), false, ""), value);
  }

  lemma EqualsScan(s: Scan)
    requires s.state.InParameter? && !s.escape
    ensures Next(s, Some('=')) == Scan(s.tokens, InParameter(s.value), false, "")
  {
  }

  /** What ends a text or a parameter: it is pushed, and a parameter follows or the bracket closes. */
  function Ended(s: Scan): seq<Token>
    requires s.state.InBracket? || s.state.InParameter?
  {
    s.tokens + [if s.state.InBracket? then Bracket(s.value) else Parameter(s.state.name, s.value)]
  }

  lemma EndingScan(s: Scan)
    requires (s.state.InBracket? || s.state.InParameter?) && !s.escape
    ensures Next(s, Some(';')) == Scan(Ended(s), InParameter(""), false, "")
    ensures Next(s, Some(']')) == Scan(Ended(s), Idle, false, "")
  {
  }

  lemma {:induction false} ParametersScan(s: Scan, ps: seq<(string, string)>)
    requires (s.state.InBracket? || s.state.InParameter?) && !s.escape
    ensures Run(s, Parameters(ps) + "]") == Scan(Ended(s) + ParameterTokens(ps), Idle, false, "")
    decreases |ps|
  {
    hide Next, Run, Escape;
    EndingScan(s);
    if ps == [] {
      RunOne(s, ']');
      assert Parameters(ps) + "]" == "]";
    } else {
      var begun := Scan(Ended(s), InParameter(""), false, "");
      var collected := Scan(Ended(s), InParameter(ps[0].0), false, ps[0].1);
      var this', more := Escape(ps[0].0) + "=" + Escape(ps[0].1), Parameters(ps[1..]) + "]";
      RunOne(s, ';');
      ParameterScan(begun, ps[0].0, ps[0].1);
      RunAppend(begun, this', more);
      RunAppend(s, ";", this' + more);
      assert Parameters(ps) + "]" == ";" + (this' + more);
      ParametersScan(collected, ps[1..]);
      assert Ended(s) + ([Parameter(ps[0].0, ps[0].1)] + ParameterTokens(ps[1..])) == Ended(collected) + ParameterTokens(ps[1..]);
    }
  }

  lemma TextsScan(s: Scan, texts: seq<string>, more: string)
    requires Settled(s) && texts != []
    ensures var begun := Scan(Settle(s), InBracket, false, "");
            var r := Run(begun, Join(EscapeAll(texts), ","));
            && r.state.InBracket? && !r.escape && Ended(r) == Settle(s) + Brackets(texts)
            && Run(s, "[" + (Join(EscapeAll(texts), ",") + more)) == Run(r, more)
  {
    hide Next, Run, Brackets, Join, EscapeAll;
    var begun := Scan(Settle(s), InBracket, false, "");
    var inside := Join(EscapeAll(texts), ",");
    Delimit(s, '[');
    RunOne(s, '[');
    BracketsScan(begun, texts);
    RunAppend(begun, inside, more);
    RunAppend(s, "[", inside + more);
  }

  lemma AssertionIsScanned(s: Scan, texts: seq<string>, parameters: seq<(string, string)>)
    requires Settled(s) && texts != []
    ensures Run(s, Spelling(Assertion(texts, parameters))) ==
            Scan(Settle(s) + (Brackets(texts) + ParameterTokens(parameters)), Idle, false, "")
  {
    hide Next, Run, Brackets, ParameterTokens, Parameters, Join, EscapeAll;
    var inside, more := Join(EscapeAll(texts), ","), Parameters(parameters) + "]";
    TextsScan(s, texts, more);
    ParametersScan(Run(Scan(Settle(s), InBracket, false, ""), inside), parameters);
    assert Spelling(Assertion(texts, parameters)) == "[" + (inside + more);
  }

  lemma LexemeScan(s: Scan, l: Lexeme)
    requires Settled(s) && IsLexeme(l) && (s.state.InSpatial? ==> !(l.Counted? && !l.isStep))
    ensures var r := Run(s, Spelling(l));
            && Settled(r) && Settle(r) == Settle(s) + Meaning(l)
            && (r.state.InSpatial? <==> l.Placed?)
            && (r.state.InTemporal? <==> l.Timed?)
            && (r.state.InStep? || r.state.InOffset? <==> l.Counted?)
  {
    hide Next, Run, Spelling, Brackets, ParameterTokens, PlaceTokens, ParseFloat;
    match l {
      case Counted(isStep, digits) => CountedScan(s, isStep, digits);
      case Timed(digits) => TimedScan(s, digits);
      case Placed(places) => PlacedScan(s, places);
      case Separator(isComma) => SeparatorIsScanned(s, isComma);
      case Assertion(texts, parameters) => AssertionIsScanned(s, texts, parameters);
    }
  }

  lemma SeparatorIsScanned(s: Scan, isComma: bool)
    requires Settled(s)
    ensures Run(s, Spelling(Separator(isComma))) == Scan(Settle(s), if isComma then InComma else InIndirection, false, "")
  {
    hide Next;
    var c := if isComma then ',' else '!';
    Delimit(s, c);
    RunOne(s, c);
  }

  lemma JunkAfter(s: Scan, l: Lexeme, junk: string)
    requires Settled(s) && IsJunk(l, junk)
    requires s.state.InSpatial? ==> l.Placed?
    requires s.state.InTemporal? ==> l.Timed?
    requires s.state.InStep? || s.state.InOffset? ==> l.Counted?
    ensures var r := Run(s, junk);
            Settled(r) && Settle(r) == Settle(s) && if junk == "" then r == s else r.state.Idle?
  {
    if junk != "" {
      var next := Next(s, Some(junk[0]));
      assert next == Scan(Settle(s), Idle, false, "");
      JunkScan(next, junk[1..]);
    }
  }

  lemma {:induction false} ItemsScan(s: Scan, items: seq<Item>)
    requires Settled(s) && AreItems(items)
    requires s.state.InSpatial? && items != [] ==> !(items[0].lexeme.Counted? && !items[0].lexeme.isStep)
    ensures Settled(Run(s, Spelled(items))) && Settle(Run(s, Spelled(items))) == Settle(s) + Meant(items)
    decreases |items|
  {
    hide Next, Run, Spelling, Meaning, Settle, IsJunk;
    if items == [] {
      RunNone(s);
    } else {
      var l, junk := items[0].lexeme, items[0].junk;
      LexemeScan(s, l);
      var read := Run(s, Spelling(l));
      JunkAfter(read, l, junk);
      var next := Run(read, junk);
      RunAppend(s, Spelling(l), junk);
      RunAppend(s, Spelling(l) + junk, Spelled(items[1..]));
      assert items[1..] != [] ==> !RunsOn(items[0], items[1].lexeme);
      ItemsScan(next, items[1..]);
    }
  }

  lemma NothingYet()
    ensures Settle(INITIAL) == [] && INITIAL.state.Idle?
  {
  }

  /** Every text of lexemes, with what stands before and between them, is read as their tokens. */
  lemma LexemesAreRead(before: string, items: seq<Item>)
    requires (forall k :: 0 <= k < |before| ==> !IsDelimiter(before[k]) && before[k] != '^') && AreItems(items)
    requires Trim(before + Spelled(items)) == before + Spelled(items)
    ensures Tokens(before + Spelled(items)) == Meant(items)
  {
    hide Next, Run, Trim, Spelled, Meant, Settle, Settled, AreItems;
    InitiallySettled();
    NothingYet();
    JunkScan(INITIAL, before);
    RunAppend(INITIAL, before, Spelled(items));
    ItemsScan(INITIAL, items);
    EndScan(Run(INITIAL, Spelled(items)));
    assert [] + Meant(items) == Meant(items);
  }

  // ----- Parts

  predicate HaveNoStep(fields: seq<Token>) {
    forall k :: 0 <= k < |fields| ==> !fields[k].Step?
  }

  /** The last offset, and likewise the last time and the last side. */
  function OffsetOf(fields: seq<Token>): Option<Number> {
    if fields == [] then None else
    var last, rest := fields[|fields| - 1], fields[..|fields| - 1];
    if last.Offset? then Some(last.n) else OffsetOf(rest)
  }

  function TemporalOf(fields: seq<Token>): string {
    if fields == [] then "" else
    var last, rest := fields[|fields| - 1], fields[..|fields| - 1];
    if last.Temporal? then last.t else TemporalOf(rest)
  }

  function SideOf(fields: seq<Token>): string {
    if fields == [] then "" else
    var last, rest := fields[|fields| - 1], fields[..|fields| - 1];
    if last.Parameter? && last.name == "s" then last.value else SideOf(rest)
  }

  /** All places, in order. */
  function PlacesOf(fields: seq<Token>): seq<string> {
    if fields == [] then [] else
    var last, rest := fields[|fields| - 1], fields[..|fields| - 1];
    PlacesOf(rest) + if last.Spatial? then [last.t] else []
  }

  /** Only texts that are empty. */
  predicate AreBlank(fields: seq<Token>) {
    forall k :: 0 <= k < |fields| ==> fields[k] == Bracket("")
  }

  /** The id is the first text that is not empty, if nothing but empty ones stands between it and the step. */
  predicate IsId(fields: seq<Token>, k: nat)
    requires k < |fields|
  {
    fields[k].Bracket? && fields[k].value != "" && AreBlank(fields[..k])
  }

  /** All texts but the id, in order. */
  function TextsOf(fields: seq<Token>): seq<string> {
    if fields == [] then [] else
    var last, rest := fields[|fields| - 1], fields[..|fields| - 1];
    TextsOf(rest) + if last.Bracket? && !IsId(fields, |fields| - 1) then [last.value] else []
  }

  function IdOf(fields: seq<Token>): string {
    if fields == [] then "" else
    var last, rest := fields[|fields| - 1], fields[..|fields| - 1];
    if IsId(fields, |fields| - 1) then last.value else IdOf(rest)
  }

  function PartOf(n: Number, fields: seq<Token>): Part {
    Part(n, IdOf(fields), OffsetOf(fields), TemporalOf(fields), PlacesOf(fields), TextsOf(fields), SideOf(fields))
  }

  /** A step with the fields up to the next step is one part more. */
  lemma {:induction false} PartIsRead(r: Reading, n: Number, fields: seq<Token>)
    requires HaveNoStep(fields)
    ensures ReadAll(r, [Step(n)] + fields) == Success(Reading(r.parts + [PartOf(n, fields)], AreBlank(fields)))
    decreases |fields|
  {
    if fields == [] {
      assert [Step(n)] + fields == [Step(n)];
      assert ReadAll(r, [Step(n)]) == Read(r, Step(n));
    } else {
      var rest, last := fields[..|fields| - 1], fields[|fields| - 1];
      PartIsRead(r, n, rest);
      var so := Reading(r.parts + [PartOf(n, rest)], AreBlank(rest));
      assert [Step(n)] + fields == ([Step(n)] + rest) + [last];
      ReadAllAppend(r, [Step(n)] + rest, [last]);
      assert ReadAll(so, [last]) == Read(so, last);
      assert so.parts[..|so.parts| - 1] == r.parts && so.parts[|so.parts| - 1] == PartOf(n, rest);
      FieldIsRead(so, n, fields);
    }
  }

  lemma BlankNext(fields: seq<Token>)
    requires fields != []
    ensures AreBlank(fields) <==> AreBlank(fields[..|fields| - 1]) && fields[|fields| - 1] == Bracket("")
  {
  }

  lemma FieldIsRead(so: Reading, n: Number, fields: seq<Token>)
    requires fields != [] && !fields[|fields| - 1].Step? && so.parts != []
    requires so.parts[|so.parts| - 1] == PartOf(n, fields[..|fields| - 1]) && so.afterStep == AreBlank(fields[..|fields| - 1])
    ensures Read(so, fields[|fields| - 1]) == Success(Reading(so.parts[..|so.parts| - 1] + [PartOf(n, fields)], AreBlank(fields)))
  {
    hide AreBlank;
    BlankNext(fields);
    var rest, last := fields[..|fields| - 1], fields[|fields| - 1];
    assert so.parts == so.parts[..|so.parts| - 1] + [PartOf(n, rest)];
    assert PlacesOf(rest) + [] == PlacesOf(rest) && TextsOf(rest) + [] == TextsOf(rest);
  }

  // ----- Whole identifiers

  /** A step and what follows it. */
  datatype Group = Group(n: Number, fields: seq<Token>)

  predicate IsGroup(g: Group) {
    HaveNoStep(g.fields) && Indirection !in g.fields && Comma !in g.fields
  }

  predicate AreGroups(gs: seq<Group>) {
    forall k :: 0 <= k < |gs| ==> IsGroup(gs[k])
  }

  function GroupTokens(gs: seq<Group>): (tokens: seq<Token>)
    requires AreGroups(gs)
    ensures Indirection !in tokens && Comma !in tokens
  {
    if gs == [] then [] else [Step(gs[0].n)] + gs[0].fields + GroupTokens(gs[1..])
  }

  function PartsOf(gs: seq<Group>): Path {
    seq(|gs|, k requires 0 <= k < |gs| => PartOf(gs[k].n, gs[k].fields))
  }

  lemma FirstGroup(gs: seq<Group>)
    requires AreGroups(gs) && gs != []
    ensures GroupTokens(gs) == [Step(gs[0].n)] + gs[0].fields + GroupTokens(gs[1..])
    ensures PartsOf(gs) == [PartOf(gs[0].n, gs[0].fields)] + PartsOf(gs[1..])
  {
    hide PartOf;
  }

  lemma {:induction false} GroupsAreRead(r: Reading, gs: seq<Group>)
    requires AreGroups(gs)
    ensures var read := ReadAll(r, GroupTokens(gs)); read.Success? && read.value.parts == r.parts + PartsOf(gs)
    decreases |gs|
  {
    hide PartOf, ReadAll, GroupTokens, PartsOf;
    if gs == [] {
      NoGroups(r);
    } else {
      FirstGroup(gs);
      PartIsRead(r, gs[0].n, gs[0].fields);
      var part := PartOf(gs[0].n, gs[0].fields);
      var next := Reading(r.parts + [part], AreBlank(gs[0].fields));
      ReadAllAppend(r, [Step(gs[0].n)] + gs[0].fields, GroupTokens(gs[1..]));
      GroupsAreRead(next, gs[1..]);
      assert r.parts + [part] + PartsOf(gs[1..]) == r.parts + ([part] + PartsOf(gs[1..]));
    }
  }

  lemma NoGroups(r: Reading)
    ensures ReadAll(r, GroupTokens([])) == Success(r) && r.parts + PartsOf([]) == r.parts
  {
  }

  lemma PathIsRead(gs: seq<Group>)
    requires AreGroups(gs)
    ensures ParsePath(GroupTokens(gs)) == Success(PartsOf(gs))
  {
    GroupsAreRead(Reading([], false), gs);
    assert [] + PartsOf(gs) == PartsOf(gs);
  }

  function Between(runs: seq<seq<Token>>, separator: Token): seq<Token>
    requires runs != []
  {
    if |runs| == 1 then runs[0] else runs[0] + [separator] + Between(runs[1..], separator)
  }

  lemma {:induction false} SplitOne(run: seq<Token>, separator: Token)
    requires separator !in run
    ensures Split(run, separator) == [run]
  {
    if run != [] {
      SplitOne(run[1..], separator);
      assert [run[0]] + run[1..] == run;
    }
  }

  lemma {:induction false} SplitFirst(run: seq<Token>, separator: Token, rest: seq<Token>)
    requires separator !in run
    ensures Split(run + [separator] + rest, separator) == [run] + Split(rest, separator)
  {
    if run == [] {
      assert [] + [separator] + rest == [separator] + rest && ([separator] + rest)[1..] == rest;
    } else {
      SplitFirst(run[1..], separator, rest);
      assert (run + [separator] + rest)[1..] == run[1..] + [separator] + rest;
      assert [run[0]] + run[1..] == run;
      assert ([run[1..]] + Split(rest, separator))[1..] == Split(rest, separator);
    }
  }

  lemma {:induction false} RunsAreSplit(runs: seq<seq<Token>>, separator: Token)
    requires runs != [] && forall k :: 0 <= k < |runs| ==> separator !in runs[k]
    ensures Split(Between(runs, separator), separator) == runs
    decreases |runs|
  {
    if |runs| == 1 {
      SplitOne(runs[0], separator);
      assert [runs[0]] == runs;
    } else {
      RunsAreSplit(runs[1..], separator);
      SplitFirst(runs[0], separator, Between(runs[1..], separator));
      assert [runs[0]] + runs[1..] == runs;
    }
  }

  /** The paths of one run, separated by indirections. */
  predicate ArePaths(paths: seq<seq<Group>>) {
    paths != [] && forall k :: 0 <= k < |paths| ==> AreGroups(paths[k])
  }

  function PathRuns(paths: seq<seq<Group>>): seq<seq<Token>>
    requires ArePaths(paths)
  {
    seq(|paths|, k requires 0 <= k < |paths| => GroupTokens(paths[k]))
  }

  function ReadPaths(paths: seq<seq<Group>>): seq<Path> {
    seq(|paths|, k requires 0 <= k < |paths| => PartsOf(paths[k]))
  }

  lemma {:induction false} RunsAreParsed(runs: seq<seq<Token>>, paths: seq<Path>)
    requires |runs| == |paths| && forall k :: 0 <= k < |runs| ==> ParsePath(runs[k]) == Success(paths[k])
    ensures ParseRuns(runs) == Success(paths)
  {
    hide ParsePath;
    if runs != [] {
      RunsAreParsed(runs[1..], paths[1..]);
      assert [paths[0]] + paths[1..] == paths;
    }
  }

  lemma PathsAreRead(paths: seq<seq<Group>>)
    requires ArePaths(paths)
    ensures ParsePaths(Between(PathRuns(paths), Indirection)) == Success(ReadPaths(paths))
  {
    hide ParsePath, GroupTokens, PartsOf;
    var runs := PathRuns(paths);
    RunsAreSplit(runs, Indirection);
    forall k | 0 <= k < |runs|
      ensures ParsePath(runs[k]) == Success(ReadPaths(paths)[k])
    {
      PathIsRead(paths[k]);
    }
    RunsAreParsed(runs, ReadPaths(paths));
  }

  lemma {:induction false} NoCommaBetween(runs: seq<seq<Token>>)
    requires runs != [] && forall k :: 0 <= k < |runs| ==> Comma !in runs[k]
    ensures Comma !in Between(runs, Indirection)
    decreases |runs|
  {
    if |runs| > 1 {
      NoCommaBetween(runs[1..]);
    }
  }

  predicate AreRanges(ranges: seq<seq<seq<Group>>>) {
    ranges != [] && forall k :: 0 <= k < |ranges| ==> ArePaths(ranges[k])
  }

  function RangeRuns(ranges: seq<seq<seq<Group>>>): seq<seq<Token>>
    requires AreRanges(ranges)
  {
    seq(|ranges|, k requires 0 <= k < |ranges| => Between(PathRuns(ranges[k]), Indirection))
  }

  lemma {:induction false} AllAreParsed(runs: seq<seq<Token>>, all: seq<seq<Path>>)
    requires |runs| == |all| && forall k :: 0 <= k < |runs| ==> ParsePaths(runs[k]) == Success(all[k])
    ensures ParseAll(runs) == Success(all)
  {
    hide ParsePaths;
    if runs != [] {
      AllAreParsed(runs[1..], all[1..]);
      assert [all[0]] + all[1..] == all;
    }
  }

  lemma RangesAreRead(ranges: seq<seq<seq<Group>>>)
    requires AreRanges(ranges)
    ensures Split(Between(RangeRuns(ranges), Comma), Comma) == RangeRuns(ranges)
    ensures ParseAll(RangeRuns(ranges)) == Success(seq(|ranges|, k requires 0 <= k < |ranges| => ReadPaths(ranges[k])))
  {
    hide ParsePaths, PathRuns, ReadPaths, Between;
    var runs := RangeRuns(ranges);
    forall k | 0 <= k < |runs|
      ensures Comma !in runs[k] && ParsePaths(runs[k]) == Success(ReadPaths(ranges[k]))
    {
      RunHasNoComma(ranges[k]);
      PathsAreRead(ranges[k]);
    }
    RunsAreSplit(runs, Comma);
    AllAreParsed(runs, seq(|ranges|, k requires 0 <= k < |ranges| => ReadPaths(ranges[k])));
  }

  lemma RunHasNoComma(paths: seq<seq<Group>>)
    requires ArePaths(paths)
    ensures Comma !in Between(PathRuns(paths), Indirection)
  {
    NoCommaBetween(PathRuns(paths));
  }

  /** The wrapper is taken off around a text of one line. */
  lemma WrapperIsTakenOff(s: string)
    requires forall k :: 0 <= k < |s| ==> !IsLineTerminator(s[k])
    ensures Unwrap("epubcfi(" + s + ")") == s
  {
    var wrapped := "epubcfi(" + s + ")";
    assert wrapped[..8] == "epubcfi(" == PREFIX;
    assert wrapped[8..|wrapped| - 1] == s;
    assert forall k :: 8 <= k < |wrapped| - 1 ==> wrapped[k] == s[k - 8];
  }

  /** Any identifier whose tokens are steps with fields, separated into paths, and these by commas: without a comma it is a
      point, with one a range without an end, and with more a range of the first three. */
  lemma IdentifierIsRead(cfi: string, ranges: seq<seq<seq<Group>>>)
    requires AreRanges(ranges) && Tokens(Unwrap(cfi)) == Between(RangeRuns(ranges), Comma)
    ensures Parse(cfi) == Success(
              if |ranges| == 1 then Point(ReadPaths(ranges[0]))
              else if |ranges| == 2 then OpenRange(ReadPaths(ranges[0]), ReadPaths(ranges[1]))
              else Range(ReadPaths(ranges[0]), ReadPaths(ranges[1]), ReadPaths(ranges[2])))
  {
    hide Tokens, Unwrap, Split, ParseAll, RangeRuns, ReadPaths, Between;
    RangesAreRead(ranges);
  }
}
