/** Identifiers that print no side twice: a parse that loses no letter sets every side that it reads, so that a misread side
    shows in what comes back. */
module CfiTally {
  import opened Wrappers
  import opened CfiSyntax
  import opened CfiPrintable
  import opened CfiScan
  import opened CfiParsed
  import opened CfiFields
  import opened CfiExactness

  // ----- Letters and sides

  /** How many letters are held, and which sides. */
  datatype Tally = Tally(letters: nat, sides: seq<string>)

  const NONE := Tally(0, [])

  function Plus(a: Tally, b: Tally): Tally {
    Tally(a.letters + b.letters, a.sides + b.sides)
  }

  /** No more letters, and the same sides if there are as many. */
  predicate Within(a: Tally, b: Tally) {
    a.letters <= b.letters && (a.letters == b.letters ==> a.sides == b.sides)
  }

  function TextsCount(ts: seq<string>): nat {
    if ts == [] then 0 else Count(ts[0]) + TextsCount(ts[1..])
  }

  lemma {:induction false} TextsCountPush(ts: seq<string>, t: string)
    ensures TextsCount(ts + [t]) == TextsCount(ts) + Count(t)
    decreases |ts|
  {
    hide Count;
    if ts != [] {
      assert (ts + [t])[1..] == ts[1..] + [t];
      TextsCountPush(ts[1..], t);
    } else {
      assert (ts + [t])[1..] == [];
    }
  }

  function SideTally(side: string): Tally {
    if side == "" then NONE else Tally(1 + Count(side), [side])
  }

  function AddLetters(n: nat, a: Tally): Tally {
    Tally(n + a.letters, a.sides)
  }

  function PartTally(p: Part): Tally {
    AddLetters(Count(p.id) + TextsCount(p.text), SideTally(p.side))
  }

  function PathTally(path: Path): Tally {
    if path == [] then NONE else Plus(PartTally(path[0]), PathTally(path[1..]))
  }

  function PathsTally(paths: seq<Path>): Tally {
    if paths == [] then NONE else Plus(PathTally(paths[0]), PathsTally(paths[1..]))
  }

  function CfiTally(c: Cfi): Tally {
    match c
    case Point(paths) => PathsTally(paths)
    case Range(parent, start, end) => Plus(PathsTally(parent), Plus(PathsTally(start), PathsTally(end)))
    case OpenRange(parent, start) => Plus(PathsTally(parent), PathsTally(start))
  }

  function TokensTally(ts: seq<Token>): Tally {
    Tally(TokensCount(ts), SideValues(ts))
  }

  function RunsTally(runs: seq<seq<Token>>): Tally {
    if runs == [] then NONE else Plus(TokensTally(runs[0]), RunsTally(runs[1..]))
  }

  lemma WithinPlus(a: Tally, b: Tally, c: Tally, d: Tally)
    requires Within(a, b) && Within(c, d)
    ensures Within(Plus(a, c), Plus(b, d))
  {
  }

  lemma NothingMore(a: Tally)
    ensures Plus(a, NONE) == a == Plus(NONE, a)
  {
  }

  lemma PlusAssociates(a: Tally, b: Tally, c: Tally)
    ensures Plus(Plus(a, b), c) == Plus(a, Plus(b, c))
  {
  }

  lemma {:induction false} SidesAreCounted(ts: seq<Token>)
    ensures |SideValues(ts)| <= TokensCount(ts)
  {
    if ts != [] {
      SidesAreCounted(ts[1..]);
      if SideOf(ts[0]) != [] {
        assert Count("s") == 1 + Count("s"[1..]);
      }
    }
  }

  lemma TokensTallyAppend(a: seq<Token>, b: seq<Token>)
    ensures TokensTally(a + b) == Plus(TokensTally(a), TokensTally(b))
  {
    hide TokensCount, SideValues;
    TokensCountAppend(a, b);
    SideValuesAppend(a, b);
  }

  lemma OneTokenTally(t: Token)
    ensures TokensTally([t]) == Tally(TokenCount(t), SideOf(t))
  {
    hide TokenCount, SideOf;
    assert [t][1..] == [];
    assert TokensCount([t]) == TokenCount(t) + TokensCount([]);
    assert SideValues([t]) == SideOf(t) + SideValues([]);
  }

  // ----- Reading holds no more than its tokens

  lemma {:induction false} PathTallyPush(path: Path, p: Part)
    ensures PathTally(path + [p]) == Plus(PathTally(path), PartTally(p))
    decreases |path|
  {
    hide PartTally;
    if path != [] {
      assert (path + [p])[1..] == path[1..] + [p];
      PathTallyPush(path[1..], p);
    } else {
      assert (path + [p])[1..] == [];
    }
  }

  lemma UpdatedPart(last: Part, value: string)
    ensures Within(PartTally(last.(side := value)), Plus(PartTally(last), Tally(1 + Count(value), [value])))
    ensures Within(PartTally(last.(id := value)), AddLetters(Count(value), PartTally(last)))
    ensures PartTally(last.(text := last.text + [value])) == AddLetters(Count(value), PartTally(last))
  {
    hide Count, TextsCount;
    TextsCountPush(last.text, value);
  }

  lemma MoreLetters(n: nat, a: Tally)
    ensures Plus(a, Tally(n, [])) == AddLetters(n, a)
  {
  }

  lemma OneRead(r: Reading, t: Token)
    requires Read(r, t).Success?
    ensures Within(PathTally(Read(r, t).value.parts), Plus(PathTally(r.parts), Tally(TokenCount(t), SideOf(t))))
  {
    hide PathTally, PartTally, Count, TextsCount;
    if t.Step? {
      var p := Part(t.n, "", None, "", [], [], "");
      PathTallyPush(r.parts, p);
      NoLetters();
      NoTexts();
      BlankTally(p);
    } else if !t.Indirection? && !t.Comma? && (t.Parameter? ==> t.name == "s") {
      var last, rest := r.parts[|r.parts| - 1], r.parts[..|r.parts| - 1];
      assert r.parts == rest + [last];
      var parts := Read(r, t).value.parts;
      var now := parts[|parts| - 1];
      assert parts == rest + [now];
      PathTallyPush(rest, last);
      PathTallyPush(rest, now);
      FieldIsSet(r, t, last, now);
    }
  }

  lemma BlankTally(p: Part)
    requires Count(p.id) == 0 && TextsCount(p.text) == 0 && p.side == ""
    ensures PartTally(p) == NONE
  {
    hide Count, TextsCount;
  }

  lemma NoTexts()
    ensures TextsCount([]) == 0
  {
  }

  lemma FieldIsSet(r: Reading, t: Token, last: Part, now: Part)
    requires r.parts != [] && last == r.parts[|r.parts| - 1] && !t.Step? && !t.Indirection? && !t.Comma? && (t.Parameter? ==> t.name == "s")
    requires Read(r, t).Success? && Read(r, t).value.parts == r.parts[..|r.parts| - 1] + [now]
    ensures Within(PartTally(now), Plus(PartTally(last), Tally(TokenCount(t), SideOf(t))))
  {
    hide PartTally, Count, Plus;
    assert now == Read(r, t).value.parts[|r.parts| - 1];
    match t
    case Bracket(value) =>
      UpdatedPart(last, value);
      MoreLetters(Count(value), PartTally(last));
    case Parameter(_, value) =>
      UpdatedPart(last, value);
      OneLetter();
    case Offset(n) => UntouchedPart(last, now);
    case Temporal(x) => UntouchedPart(last, now);
    case Spatial(x) => UntouchedPart(last, now);
  }

  lemma OneLetter()
    ensures Count("s") == 1
  {
    assert Count("s") == 1 + Count("s"[1..]);
  }

  lemma UntouchedPart(p: Part, q: Part)
    requires p.id == q.id && p.text == q.text && p.side == q.side
    ensures PartTally(q) == Plus(PartTally(p), NONE)
  {
    hide Count, TextsCount, SideTally;
    NothingMore(PartTally(p));
  }

  lemma {:induction false} ReadAllIsWithin(r: Reading, tokens: seq<Token>)
    requires ReadAll(r, tokens).Success?
    ensures Within(PathTally(ReadAll(r, tokens).value.parts), Plus(PathTally(r.parts), TokensTally(tokens)))
    decreases tokens
  {
    hide Read, PathTally, TokenCount, SideOf;
    if tokens != [] {
      var next := Read(r, tokens[0]).value;
      OneRead(r, tokens[0]);
      ReadAllIsWithin(next, tokens[1..]);
    }
  }

  lemma {:induction false} ParseRunsIsWithin(runs: seq<seq<Token>>)
    requires ParseRuns(runs).Success?
    ensures Within(PathsTally(ParseRuns(runs).value), RunsTally(runs))
    decreases |runs|
  {
    hide PathTally, TokensTally, ReadAll;
    if runs != [] {
      ReadAllIsWithin(Reading([], false), runs[0]);
      NoParts();
      ParseRunsIsWithin(runs[1..]);
      WithinPlus(PathTally(ParseRuns(runs).value[0]), TokensTally(runs[0]), PathsTally(ParseRuns(runs[1..]).value), RunsTally(runs[1..]));
    }
  }

  lemma NoParts()
    ensures PathTally([]) == NONE
  {
  }

  lemma {:induction false} SplitTally(tokens: seq<Token>, separator: Token)
    requires separator.Comma? || separator.Indirection?
    ensures RunsTally(Split(tokens, separator)) == TokensTally(tokens)
    decreases tokens
  {
    hide TokensTally, RunsTally, Plus;
    if tokens == [] {
      OneRunTally([]);
    } else {
      var t, rest := tokens[0], Split(tokens[1..], separator);
      SplitTally(tokens[1..], separator);
      TokensTallyAppend([t], tokens[1..]);
      assert tokens == [t] + tokens[1..];
      RunsTallyFirst(rest);
      if t == separator {
        RunsTallyFirst([[]] + rest);
        assert ([[]] + rest)[1..] == rest;
        NoTokensTally();
        BareToken(t);
      } else {
        var runs := [[t] + rest[0]] + rest[1..];
        RunsTallyFirst(runs);
        assert runs[1..] == rest[1..];
        TokensTallyAppend([t], rest[0]);
        PlusAssociates(TokensTally([t]), TokensTally(rest[0]), RunsTally(rest[1..]));
      }
    }
  }

  lemma RunsTallyFirst(runs: seq<seq<Token>>)
    requires runs != []
    ensures RunsTally(runs) == Plus(TokensTally(runs[0]), RunsTally(runs[1..]))
  {
  }

  /** A token that neither sets a side nor holds letters. */
  lemma BareToken(t: Token)
    requires !t.Bracket? && !t.Parameter?
    ensures TokensTally([t]) == NONE
  {
    hide TokensTally;
    OneTokenTally(t);
  }

  lemma NoTokensTally()
    ensures TokensTally([]) == NONE
  {
  }

  lemma OneRunTally(tokens: seq<Token>)
    ensures RunsTally([tokens]) == TokensTally(tokens)
  {
    hide TokensTally, Plus;
    RunsTallyFirst([tokens]);
    NoRuns();
    assert [tokens][1..] == [];
    NothingMore(TokensTally(tokens));
  }

  lemma ParsePathsIsWithin(tokens: seq<Token>)
    requires ParsePaths(tokens).Success?
    ensures Within(PathsTally(ParsePaths(tokens).value), TokensTally(tokens))
  {
    hide PathsTally, RunsTally, TokensTally;
    SplitTally(tokens, Indirection);
    ParseRunsIsWithin(Split(tokens, Indirection));
  }

  /** The first three runs hold no more than all. */
  lemma {:induction false} MoreRuns(runs: seq<seq<Token>>)
    ensures |RunsTally(runs).sides| <= RunsTally(runs).letters
  {
    hide SideValues, TokensCount;
    if runs != [] {
      SidesAreCounted(runs[0]);
      MoreRuns(runs[1..]);
    }
  }

  lemma FirstRun(runs: seq<seq<Token>>)
    requires runs != [] && ParseAll(runs).Success?
    ensures Within(PathsTally(ParseAll(runs).value[0]), TokensTally(runs[0]))
    ensures ParseAll(runs[1..]).Success? && ParseAll(runs[1..]).value == ParseAll(runs).value[1..]
    ensures RunsTally(runs) == Plus(TokensTally(runs[0]), RunsTally(runs[1..]))
  {
    hide ParsePaths, PathsTally, TokensTally, Within;
    ParsePathsIsWithin(runs[0]);
  }

  /** An identifier holds no more letters than its tokens, and every side they set if as many. */
  lemma ParseIsWithin(text: string)
    requires Parse(text).Success?
    ensures Within(CfiTally(Parse(text).value), TokensTally(Tokens(Unwrap(text))))
  {
    hide Tokens, Unwrap, PathsTally, TokensTally, Split, ParseAll, RunsTally, Within;
    var runs := Split(Tokens(Unwrap(text)), Comma);
    SplitTally(Tokens(Unwrap(text)), Comma);
    FirstRun(runs);
    NoRuns();
    var first, others, paths := TokensTally(runs[0]), runs[1..], ParseAll(runs).value;
    if |runs| == 1 {
      NothingMore(first);
    } else {
      FirstRun(others);
      var second, last := TokensTally(others[0]), others[1..];
      if |runs| == 2 {
        NothingMore(second);
        WithinPlus(PathsTally(paths[0]), first, PathsTally(paths[1]), second);
      } else {
        FirstRun(last);
        MoreRuns(last[1..]);
        WithinMore(PathsTally(paths[2]), TokensTally(last[0]), RunsTally(last[1..]));
        WithinPlus(PathsTally(paths[1]), second, PathsTally(paths[2]), RunsTally(last));
        WithinPlus(PathsTally(paths[0]), first, Plus(PathsTally(paths[1]), PathsTally(paths[2])), RunsTally(others));
      }
    }
  }

  lemma NoRuns()
    ensures RunsTally([]) == NONE
  {
  }

  lemma WithinMore(a: Tally, b: Tally, more: Tally)
    requires Within(a, b) && |more.sides| <= more.letters
    ensures Within(a, Plus(b, more))
  {
  }

  // ----- Printing writes down no more than what is held

  /** A part prints its side after its id and again after its texts. */
  predicate PrintsSideOnce(p: Part) {
    p.side == "" || p.id == "" || p.text == []
  }

  ghost predicate SidesOnce(c: Cfi) {
    HoldsIn(c, PrintsSideOnce)
  }

  lemma {:induction false} BracketsTally(ts: seq<string>)
    ensures TokensTally(Brackets(ts)) == Tally(TextsCount(ts), [])
  {
    hide Count;
    if ts != [] {
      BracketsTally(ts[1..]);
      assert Brackets(ts)[1..] == Brackets(ts[1..]);
    }
  }

  lemma ParamTally(p: Part)
    ensures TokensTally(ParamTokens(p)) == SideTally(p.side)
  {
    if p.side != "" {
      OneTokenTally(Parameter("s", p.side));
      assert Count("s") == 1 + Count("s"[1..]) == 1;
    }
  }

  lemma BracketsThen(ts: seq<string>, rest: seq<Token>)
    ensures TokensTally(Brackets(ts) + rest) == AddLetters(TextsCount(ts), TokensTally(rest))
  {
    hide TextsCount, Brackets;
    BracketsTally(ts);
    TokensTallyAppend(Brackets(ts), rest);
  }

  lemma IdTally(p: Part)
    ensures TokensTally(IdTokens(p)) == AddLetters(Count(p.id), if p.id == "" then NONE else SideTally(p.side))
  {
    hide TokensTally, ParamTokens, SideTally, Count, TextsCount;
    NoTokensTally();
    NoLetters();
    if p.id != "" {
      BracketsThen([p.id], ParamTokens(p));
      OneText(p.id);
      ParamTally(p);
    }
  }

  lemma OneText(t: string)
    ensures TextsCount([t]) == Count(t) && Brackets([t]) == [Bracket(t)]
  {
    hide Count;
    assert [t][1..] == [];
  }

  lemma AssertionTally(p: Part)
    ensures TokensTally(AssertionTokens(p)) == AddLetters(TextsCount(p.text), if Shown(p) == [] then NONE else SideTally(p.side))
  {
    hide TokensTally, ParamTokens, SideTally, Brackets, TextsCount, Shown;
    var shown := Shown(p);
    ShownCounts(p);
    if shown == [] {
      NoTokensTally();
      NoTexts();
    } else {
      BracketsThen(shown, ParamTokens(p));
      ParamTally(p);
    }
  }

  lemma ShownCounts(p: Part)
    ensures TextsCount(Shown(p)) == TextsCount(p.text)
  {
    hide TextsCount, Count;
    NoTexts();
    NoLetters();
    OneText("");
  }

  lemma NumbersTally(p: Part)
    ensures TokensTally([Step(p.index)]) == NONE && TokensTally(OffsetTokens(p)) == NONE && TokensTally(TemporalTokens(p)) == NONE
    ensures TokensTally(Spatials(p.spatial)) == NONE
  {
    hide TokensTally, Spatials;
    NoTokensTally();
    BareToken(Step(p.index));
    if p.offset.Some? {
      BareToken(Offset(p.offset.value));
    }
    BareToken(Temporal(p.temporal));
    SpatialsTally(p.spatial);
  }

  lemma SpatialsTally(ts: seq<string>)
    ensures TokensTally(Spatials(ts)) == NONE
  {
    NumbersHaveNoSides(ts);
  }

  lemma FieldsOfPart(p: Part)
    requires PrintsSideOnce(p)
    ensures TokensTally(PartFields(p)) == PartTally(p)
  {
    hide TokensTally, IdTokens, OffsetTokens, TemporalTokens, Spatials, AssertionTokens, Plus, PartTally;
    NumbersTally(p);
    var u1 := [Step(p.index)];
    var u2 := u1 + IdTokens(p);
    var u3 := u2 + OffsetTokens(p);
    var u4 := u3 + TemporalTokens(p);
    TokensTallyAppend(u1, IdTokens(p));
    TokensTallyAppend(u2, OffsetTokens(p));
    TokensTallyAppend(u3, TemporalTokens(p));
    TokensTallyAppend(u4, Spatials(p.spatial));
    TokensTallyAppend(u4 + Spatials(p.spatial), AssertionTokens(p));
    NothingMore(TokensTally(IdTokens(p)));
    IdAndTexts(p);
  }

  lemma IdAndTexts(p: Part)
    requires PrintsSideOnce(p)
    ensures Plus(TokensTally(IdTokens(p)), TokensTally(AssertionTokens(p))) == PartTally(p)
  {
    hide TokensTally, IdTokens, AssertionTokens, Count, TextsCount, SideTally, Plus, AddLetters, Shown;
    IdTally(p);
    AssertionTally(p);
    var side := SideTally(p.side);
    WhereTheSideIs(p);
    OneOfTwo(Count(p.id), if p.id == "" then NONE else side, TextsCount(p.text), if Shown(p) == [] then NONE else side);
  }

  lemma WhereTheSideIs(p: Part)
    requires PrintsSideOnce(p)
    ensures SideTally(p.side) == NONE || (p.id == "" <==> Shown(p) != [])
  {
  }

  lemma OneOfTwo(m: nat, a: Tally, n: nat, b: Tally)
    requires a == NONE || b == NONE
    ensures Plus(AddLetters(m, a), AddLetters(n, b)) == AddLetters(m + n, if a == NONE then b else a)
  {
  }

  lemma {:induction false} FieldsAppend(xs: seq<Piece>, ys: seq<Piece>)
    ensures Fields(xs + ys) == Fields(xs) + Fields(ys)
    decreases |xs|
  {
    hide PieceFields;
    if xs == [] {
      assert xs + ys == ys;
    } else {
      assert (xs + ys)[1..] == xs[1..] + ys;
      FieldsAppend(xs[1..], ys);
    }
  }

  lemma FieldsTallyAppend(xs: seq<Piece>, ys: seq<Piece>)
    ensures TokensTally(Fields(xs + ys)) == Plus(TokensTally(Fields(xs)), TokensTally(Fields(ys)))
  {
    hide TokensTally, Fields;
    FieldsAppend(xs, ys);
    TokensTallyAppend(Fields(xs), Fields(ys));
  }

  lemma MarkTally(c: char)
    ensures TokensTally(Fields([Mark(c)])) == NONE
  {
    hide TokensTally;
    assert [Mark(c)][1..] == [];
    var t := if c == '!' then Indirection else Comma;
    OneTokenTally(t);
    assert Fields([Mark(c)]) == [t] + Fields([]) == [t];
  }

  lemma {:induction false} FieldsOfPath(path: Path)
    requires Holds(path, PrintsSideOnce)
    ensures TokensTally(Fields(PathPieces(path))) == PathTally(path)
    decreases |path|
  {
    hide TokensTally, PartTally, PartFields, PrintsSideOnce;
    if path == [] {
      NoTokensTally();
    } else {
      assert PrintsSideOnce(path[0]);
      FieldsOfPart(path[0]);
      FieldsOfPath(path[1..]);
      assert PathPieces(path)[1..] == PathPieces(path[1..]);
      TokensTallyAppend(PartFields(path[0]), Fields(PathPieces(path[1..])));
    }
  }

  lemma {:induction false} FieldsOfPaths(paths: seq<Path>)
    requires HoldsInAll(paths, PrintsSideOnce)
    ensures TokensTally(Fields(PathsPieces(paths))) == PathsTally(paths)
    decreases |paths|
  {
    hide TokensTally, PathTally, Fields, PathPieces, PrintsSideOnce, Holds;
    if paths == [] {
      NoFields();
    } else {
      FieldsOfPath(paths[0]);
      if |paths| > 1 {
        FieldsOfPaths(paths[1..]);
        MarkTally('!');
        FieldsTallyAppend(PathPieces(paths[0]), [Mark('!')]);
        FieldsTallyAppend(PathPieces(paths[0]) + [Mark('!')], PathsPieces(paths[1..]));
      } else {
        NothingMore(PathTally(paths[0]));
        assert PathsTally(paths[1..]) == NONE;
      }
    }
  }

  lemma NoFields()
    ensures TokensTally(Fields([])) == NONE
  {
  }

  lemma FieldsOfCfi(c: Cfi)
    requires SidesOnce(c)
    ensures TokensTally(Fields(Pieces(c))) == CfiTally(c)
  {
    hide TokensTally, PathsTally, Fields, PathsPieces, HoldsInAll;
    match c
    case Point(paths) => FieldsOfPaths(paths);
    case Range(parent, start, end) =>
      var a, b, e, comma := PathsPieces(parent), PathsPieces(start), PathsPieces(end), [Mark(',')];
      FieldsOfPaths(parent);
      FieldsOfPaths(start);
      FieldsOfPaths(end);
      MarkTally(',');
      FieldsTallyAppend(a, comma);
      FieldsTallyAppend(a + comma, b);
      FieldsTallyAppend(a + comma + b, comma);
      FieldsTallyAppend(a + comma + b + comma, e);
  }

  // ----- A misread side shows

  predicate HasPlainSide(p: Part) {
    PlainSide(p.side)
  }

  predicate PlainPiece(x: Piece) {
    x.Whole? ==> HasPlainSide(x.part)
  }

  predicate PlainPieces(xs: seq<Piece>) {
    forall x <- xs :: PlainPiece(x)
  }

  lemma PartTokensAreAlike(a: seq<Token>, p: Part, b: seq<Token>)
    ensures Alike(a + PartTokens(p) + b, a + PartFields(p) + b)
  {
    hide IdTokens, OffsetTokens, TemporalTokens, SpatialTokens, Spatials, AssertionTokens, SideValues, TokensCount;
    var first := [Step(p.index)] + IdTokens(p) + OffsetTokens(p) + TemporalTokens(p);
    SpatialTokensAreAlike(p.spatial);
    AlikeBetween(a + first, SpatialTokens(p.spatial), Spatials(p.spatial), AssertionTokens(p) + b);
    assert a + first + SpatialTokens(p.spatial) + (AssertionTokens(p) + b) == a + PartTokens(p) + b;
    assert a + first + Spatials(p.spatial) + (AssertionTokens(p) + b) == a + PartFields(p) + b;
  }

  lemma PlainFirst(xs: seq<Piece>)
    requires xs != []
    ensures PlainPieces(xs) <==> PlainPiece(xs[0]) && PlainPieces(xs[1..])
  {
    hide PlainPiece;
    assert xs == [xs[0]] + xs[1..];
  }

  lemma PlainPieceScan(s: Scan, x: Piece, rest: string, more: seq<Token>)
    requires Settled(s) && GoodPiece(x) && PlainPiece(x)
    ensures Settled(Run(s, PieceText(x))) && Finished(s, PieceText(x) + rest) == Finished(Run(s, PieceText(x)), rest)
    ensures Alike(Settle(Run(s, PieceText(x))) + more, Settle(s) + PieceFields(x) + more)
  {
    hide Next, Run, Settle, Settled, PartToString, PartFields, PartTokens, Canonical, PlainSide, TokensCount, SideValues;
    RunAppend(s, PieceText(x), rest);
    match x
    case Whole(p) =>
      PartScan(s, p);
      PartTokensAreAlike(Settle(s), p, more);
    case Mark(c) => SeparatorScan(s, c);
  }

  lemma {:induction false} MisreadSideShows(s: Scan, xs: seq<Piece>, tail: string)
    requires Settled(s) && GoodPieces(xs) && !PlainPieces(xs) && (tail == "" || tail == ")")
    ensures Deviates(Finished(s, Text(xs) + tail), Settle(s) + Fields(xs))
    decreases |xs|
  {
    hide Next, Run, Settle, Settled, Finished, GoodPieces, PlainPieces;
    hide PlainPiece, PieceText, PieceFields, Count, TokensCount, SideValues, Fresh;
    if xs == [] {
      NothingPlain();
    } else {
      var x, ys := xs[0], xs[1..];
      var rest := Text(ys) + tail;
      GoodFirst(xs);
      PlainFirst(xs);
      assert Text(xs) + tail == PieceText(x) + rest;
      assert Settle(s) + PieceFields(x) + Fields(ys) == Settle(s) + (PieceFields(x) + Fields(ys));
      if PlainPiece(x) {
        PlainPieceScan(s, x, rest, Fields(ys));
        MisreadSideShows(Run(s, PieceText(x)), ys, tail);
      } else {
        RestIsCounted(ys, tail);
        MisreadPiece(s, x, rest, Fields(ys));
      }
    }
  }

  lemma NothingPlain()
    ensures PlainPieces([])
  {
  }

  lemma MisreadPiece(s: Scan, x: Piece, rest: string, expected: seq<Token>)
    requires Settled(s) && GoodPiece(x) && !PlainPiece(x) && Count(rest) <= TokensCount(expected)
    ensures Deviates(Finished(s, PieceText(x) + rest), Settle(s) + (PieceFields(x) + expected))
  {
    hide Next, Run, Settle, Settled, PartToString, PartFields, Canonical, PlainSide, Count, TokensCount, Finished, Deviates;
    PartDeviates(s, x.part, rest, expected);
  }

  lemma PathHasPlainSides(path: Path)
    requires PlainPieces(PathPieces(path))
    ensures Holds(path, HasPlainSide)
  {
    hide PlainSide;
    forall k | 0 <= k < |path|
      ensures HasPlainSide(path[k])
    {
      assert PlainPiece(PathPieces(path)[k]);
    }
  }

  lemma {:induction false} PathsHavePlainSides(paths: seq<Path>)
    requires PlainPieces(PathsPieces(paths))
    ensures HoldsInAll(paths, HasPlainSide)
    decreases |paths|
  {
    hide Holds, PlainPieces, PathPieces;
    if paths != [] {
      var path, rest := PathPieces(paths[0]), PathsPieces(paths[1..]);
      if |paths| > 1 {
        PlainPiecesAppend(path, [Mark('!')]);
        PlainPiecesAppend(path + [Mark('!')], rest);
        PathsHavePlainSides(paths[1..]);
      }
      PathHasPlainSides(paths[0]);
      assert forall k :: 0 < k < |paths| ==> paths[k] == paths[1..][k - 1];
    }
  }

  lemma PlainPiecesAppend(xs: seq<Piece>, ys: seq<Piece>)
    ensures PlainPieces(xs + ys) <==> PlainPieces(xs) && PlainPieces(ys)
  {
    hide PlainPiece;
  }

  lemma CfiHasPlainSides(c: Cfi)
    requires CanonicalCfi(c) && PlainPieces(Pieces(c))
    ensures HoldsIn(c, HasPlainSide)
  {
    hide PlainPieces, PathsPieces, HoldsInAll, CanonicalPaths;
    match c
    case Point(paths) => PathsHavePlainSides(paths);
    case Range(parent, start, end) =>
      var a, b, e, comma := PathsPieces(parent), PathsPieces(start), PathsPieces(end), [Mark(',')];
      PlainPiecesAppend(a, comma);
      PlainPiecesAppend(a + comma, b);
      PlainPiecesAppend(a + comma + b, comma);
      PlainPiecesAppend(a + comma + b + comma, e);
      PathsHavePlainSides(parent);
      PathsHavePlainSides(start);
      PathsHavePlainSides(end);
  }

  /** With a side that is not plain, and none printed twice, something else comes back. */
  lemma MisreadSideComesBack(c: Cfi)
    requires CanonicalCfi(c) && SidesOnce(c) && !HoldsIn(c, HasPlainSide)
    ensures Parse(ToString(c)) != Success(c)
  {
    if PlainPieces(Pieces(c)) {
      CfiHasPlainSides(c);
    } else {
      MisreadPiecesComeBack(c);
    }
  }

  lemma MisreadPiecesComeBack(c: Cfi)
    requires CanonicalCfi(c) && SidesOnce(c) && !PlainPieces(Pieces(c))
    ensures Parse(ToString(c)) != Success(c)
  {
    hide Next, Run, Trim, Pieces, Fields, Text, GoodPieces, PlainPieces, CanonicalPaths;
    hide SidesOnce, CfiTally, ToInnerString, TokensCount, SideValues, Parse, Kept, Count;
    var inner := ToInnerString(c);
    PiecesAre(c);
    InnerText(c);
    InnerTrimmed(c);
    InnerStart(c);
    var tail := WrappedFinish(inner);
    MisreadSideShows(INITIAL, Pieces(c), tail);
    assert Settle(INITIAL) == [] && [] + Fields(Pieces(c)) == Fields(Pieces(c));
    FinishedKeeps(INITIAL, inner + tail);
    InitiallyNoLetters();
    RestIsCounted(Pieces(c), tail);
    FieldsOfCfi(c);
    if Parse(ToString(c)) == Success(c) {
      ParseIsWithin(ToString(c));
    }
  }

  lemma InitiallyNoLetters()
    ensures Kept(INITIAL) == 0
  {
  }
}
