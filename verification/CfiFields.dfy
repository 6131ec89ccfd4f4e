/** The printed text of an identifier as a list of pieces, the token for every field in it, and how often one letter
    occurs in either. */
module CfiFields {
  import opened Wrappers
  import opened CfiSyntax
  import opened CfiPrintable
  import opened CfiScan

  // ----- The fields of an identifier, in the order they are printed

  /** A part, or a separator between paths. */
  datatype Piece = Whole(part: Part) | Mark(separator: char)

  function PieceText(x: Piece): string {
    match x
    case Whole(p) => PartToString(p)
    case Mark(c) => [c]
  }

  /** A token for every field that is printed. */
  function PartFields(p: Part): seq<Token> {
    [Step(p.index)] + IdTokens(p) + OffsetTokens(p) + TemporalTokens(p) + Spatials(p.spatial) + AssertionTokens(p)
  }

  function PieceFields(x: Piece): seq<Token> {
    match x
    case Whole(p) => PartFields(p)
    case Mark(c) => [if c == '!' then Indirection else Comma]
  }

  function Text(xs: seq<Piece>): string {
    if xs == [] then "" else PieceText(xs[0]) + Text(xs[1..])
  }

  function Fields(xs: seq<Piece>): seq<Token> {
    if xs == [] then [] else PieceFields(xs[0]) + Fields(xs[1..])
  }

  lemma {:induction false} TextAppend(xs: seq<Piece>, ys: seq<Piece>)
    ensures Text(xs + ys) == Text(xs) + Text(ys)
    decreases |xs|
  {
    hide PieceText;
    if xs == [] {
      assert xs + ys == ys;
    } else {
      assert (xs + ys)[1..] == xs[1..] + ys;
      TextAppend(xs[1..], ys);
    }
  }

  function PathPieces(path: Path): (xs: seq<Piece>)
    ensures |xs| == |path|
  {
    seq(|path|, k requires 0 <= k < |path| => Whole(path[k]))
  }

  function PathsPieces(paths: seq<Path>): seq<Piece> {
    if paths == [] then []
    else if |paths| == 1 then PathPieces(paths[0])
    else PathPieces(paths[0]) + [Mark('!')] + PathsPieces(paths[1..])
  }

  function Pieces(c: Cfi): seq<Piece> {
    match c
    case Point(paths) => PathsPieces(paths)
    case Range(parent, start, end) => PathsPieces(parent) + [Mark(',')] + PathsPieces(start) + [Mark(',')] + PathsPieces(end)
    case OpenRange(parent, start) => PathsPieces(parent) + [Mark(',')] + PathsPieces(start)
  }

  lemma MarkText(c: char)
    ensures Text([Mark(c)]) == [c]
  {
    assert [Mark(c)][1..] == [];
  }

  lemma {:induction false} PathText(path: Path)
    ensures Text(PathPieces(path)) == PathToString(path)
    decreases |path|
  {
    hide PartToString;
    if path != [] {
      PathText(path[1..]);
      assert PathPieces(path)[1..] == PathPieces(path[1..]);
    }
  }

  lemma {:induction false} PathsText(paths: seq<Path>)
    ensures Text(PathsPieces(paths)) == PathsToString(paths)
    decreases |paths|
  {
    hide PathToString, PathPieces, Text;
    if paths == [] {
      NoText();
    } else {
      PathText(paths[0]);
      if |paths| > 1 {
        PathsText(paths[1..]);
        MarkText('!');
        TextAppend(PathPieces(paths[0]), [Mark('!')]);
        TextAppend(PathPieces(paths[0]) + [Mark('!')], PathsPieces(paths[1..]));
      }
    }
  }

  lemma NoText()
    ensures Text([]) == ""
  {
  }

  lemma InnerText(c: Cfi)
    requires !c.OpenRange?
    ensures Text(Pieces(c)) == ToInnerString(c)
  {
    hide PathsPieces, PathsToString, Text;
    match c
    case Point(paths) => PathsText(paths);
    case Range(parent, start, end) =>
      var a, b, e, comma := PathsPieces(parent), PathsPieces(start), PathsPieces(end), [Mark(',')];
      PathsText(parent);
      PathsText(start);
      PathsText(end);
      MarkText(',');
      TextAppend(a, comma);
      TextAppend(a + comma, b);
      TextAppend(a + comma + b, comma);
      TextAppend(a + comma + b + comma, e);
  }

  // ----- Counting one letter

  /** How often the letter that names a side occurs. */
  function Count(s: string): nat {
    if s == "" then 0 else (if s[0] == 's' then 1 else 0) + Count(s[1..])
  }

  lemma {:induction false} CountAppend(a: string, b: string)
    ensures Count(a + b) == Count(a) + Count(b)
    decreases |a|
  {
    if a == "" {
      assert a + b == b;
    } else {
      assert (a + b)[1..] == a[1..] + b;
      CountAppend(a[1..], b);
    }
  }

  lemma {:induction false} CountNone(s: string)
    requires forall k :: 0 <= k < |s| ==> s[k] != 's'
    ensures Count(s) == 0
  {
    if s != "" {
      CountNone(s[1..]);
    }
  }

  function TokenCount(t: Token): nat {
    match t
    case Bracket(value) => Count(value)
    case Parameter(name, value) => Count(name) + Count(value)
    case _ => 0
  }

  function TokensCount(ts: seq<Token>): nat {
    if ts == [] then 0 else TokenCount(ts[0]) + TokensCount(ts[1..])
  }

  lemma {:induction false} TokensCountAppend(a: seq<Token>, b: seq<Token>)
    ensures TokensCount(a + b) == TokensCount(a) + TokensCount(b)
    decreases |a|
  {
    hide TokenCount;
    if a == [] {
      assert a + b == b;
    } else {
      assert (a + b)[1..] == a[1..] + b;
      TokensCountAppend(a[1..], b);
    }
  }

  lemma TokensCountPush(a: seq<Token>, t: Token)
    ensures TokensCount(a + [t]) == TokensCount(a) + TokenCount(t)
  {
    TokensCountAppend(a, [t]);
    assert [t][1..] == [];
  }

  /** The sides that tokens set. */
  function SideValues(ts: seq<Token>): seq<string> {
    if ts == [] then [] else SideOf(ts[0]) + SideValues(ts[1..])
  }

  function SideOf(t: Token): seq<string> {
    if t.Parameter? && t.name == "s" then [t.value] else []
  }

  lemma {:induction false} SideValuesAppend(a: seq<Token>, b: seq<Token>)
    ensures SideValues(a + b) == SideValues(a) + SideValues(b)
    decreases |a|
  {
    hide SideOf;
    if a == [] {
      assert a + b == b;
    } else {
      assert (a + b)[1..] == a[1..] + b;
      SideValuesAppend(a[1..], b);
    }
  }

  lemma SideValuesPush(a: seq<Token>, t: Token)
    ensures SideValues(a + [t]) == SideValues(a) + SideOf(t)
  {
    SideValuesAppend(a, [t]);
    assert [t][1..] == [];
  }

  /** The same sides, and as many letters. */
  predicate Alike(a: seq<Token>, b: seq<Token>) {
    SideValues(a) == SideValues(b) && TokensCount(a) == TokensCount(b)
  }

  /** Other sides, or fewer letters. */
  predicate Deviates(a: seq<Token>, b: seq<Token>) {
    SideValues(a) != SideValues(b) || TokensCount(a) < TokensCount(b)
  }

  lemma AlikeBetween(a: seq<Token>, x: seq<Token>, y: seq<Token>, b: seq<Token>)
    requires Alike(x, y)
    ensures Alike(a + x + b, a + y + b)
  {
    hide SideValues, TokensCount;
    SideValuesAppend(a, x);
    SideValuesAppend(a + x, b);
    SideValuesAppend(a, y);
    SideValuesAppend(a + y, b);
    TokensCountAppend(a, x);
    TokensCountAppend(a + x, b);
    TokensCountAppend(a, y);
    TokensCountAppend(a + y, b);
  }

  lemma {:induction false} NumbersHaveNoSides(ts: seq<string>)
    ensures SideValues(Spatials(ts)) == [] && SideValues(Offsets(ts)) == []
    ensures TokensCount(Spatials(ts)) == 0 && TokensCount(Offsets(ts)) == 0
  {
    hide OffsetRead;
    if ts != [] {
      NumbersHaveNoSides(ts[1..]);
      assert Spatials(ts)[1..] == Spatials(ts[1..]) && Offsets(ts)[1..] == Offsets(ts[1..]);
    }
  }

  lemma SpatialTokensAreAlike(ts: seq<string>)
    ensures Alike(SpatialTokens(ts), Spatials(ts))
  {
    hide SideValues, TokensCount, Spatials, Offsets;
    NumbersHaveNoSides(ts);
    NumbersHaveNoSides(UpToNaN(ts));
    NumbersHaveNoSides(AfterNaN(ts));
    SideValuesAppend(Spatials(UpToNaN(ts)), Offsets(AfterNaN(ts)));
    TokensCountAppend(Spatials(UpToNaN(ts)), Offsets(AfterNaN(ts)));
  }

  /** The letters a scan has kept: in its tokens, and in what it is collecting. */
  function Kept(s: Scan): nat {
    TokensCount(s.tokens) + Count(s.value) + if s.state.InParameter? then Count(s.state.name) else 0
  }

  predicate KeepsUpTo(before: Scan, after: Scan, more: nat) {
    Kept(after) <= Kept(before) + more && TokensCount(after.tokens) <= Kept(before)
  }

  lemma PushKeeps(s: Scan, t: Token, c: Option<char>)
    requires TokenCount(t) <= Count(s.value) + if s.state.InParameter? then Count(s.state.name) else 0
    ensures KeepsUpTo(s, Push(s, t), 0) && KeepsUpTo(s, Open(Push(s, t), c), 0)
  {
    hide TokensCount, TokenCount;
    TokensCountPush(s.tokens, t);
    assert Count("") == 0;
  }

  lemma CatKeeps(s: Scan, c: Option<char>)
    ensures KeepsUpTo(s, Cat(s, c), if c == Some('s') then 1 else 0)
  {
    hide TokensCount;
    var letter := if c.Some? then [c.value] else "";
    CountAppend(s.value, letter);
    assert Count(letter) == if c == Some('s') then 1 else 0;
  }

  lemma NextKeeps(s: Scan, c: Option<char>)
    ensures KeepsUpTo(s, Next(s, c), if c == Some('s') then 1 else 0)
  {
    hide TokensCount, Count, ParseFloat, ParseInt, Push, Cat, Open;
    CatKeeps(s, c);
    NoLetters();
    match s.state {
      case Idle => OpenKeeps(s, c);
      case InIndirection => PushKeeps(s, Indirection, c);
      case InComma => PushKeeps(s, Comma, c);
      case InStep => PushKeeps(s, Step(ParseInt(s.value)), c);
      case InOffset => PushKeeps(s, Offset(ParseInt(s.value)), c);
      case InTemporal => PushKeeps(s, Temporal(ParseFloat(s.value)), c);
      case InSpatial => PushKeeps(s, Spatial(ParseFloat(s.value)), c);
      case InBracket => PushKeeps(s, Bracket(s.value), c);
      case InParameter(name) => PushKeeps(s, Parameter(name, s.value), c);
    }
  }

  lemma OpenKeeps(s: Scan, c: Option<char>)
    requires s.state.Idle?
    ensures KeepsUpTo(s, Open(s, c), 0)
  {
    hide TokensCount, Count;
  }

  lemma NoLetters()
    ensures Count("") == 0
  {
  }

  lemma {:induction false} RunKeeps(s: Scan, text: string)
    ensures Kept(Run(s, text)) <= Kept(s) + Count(text)
    decreases text
  {
    hide Next, Kept;
    if text != "" {
      NextKeeps(s, Some(text[0]));
      RunKeeps(Next(s, Some(text[0])), text[1..]);
    }
  }

  lemma FinishedKeeps(s: Scan, text: string)
    ensures TokensCount(Finished(s, text)) <= Kept(s) + Count(text)
  {
    hide Next, Kept, Run;
    RunKeeps(s, text);
    NextKeeps(Run(s, text), None);
  }

  lemma NextGrows(s: Scan, c: Option<char>)
    ensures s.tokens <= Next(s, c).tokens
  {
    hide ParseFloat, ParseInt;
  }

  lemma {:induction false} RunGrows(s: Scan, text: string)
    ensures s.tokens <= Run(s, text).tokens
    decreases text
  {
    hide Next;
    if text != "" {
      NextGrows(s, Some(text[0]));
      RunGrows(Next(s, Some(text[0])), text[1..]);
    }
  }

  lemma FinishedGrows(s: Scan, text: string)
    ensures s.tokens <= Finished(s, text)
  {
    hide Run, Next;
    RunGrows(s, text);
    NextGrows(Run(s, text), None);
  }

  // ----- Counting the printed fields

  lemma {:induction false} EscapeCounts(s: string)
    ensures Count(Escape(s)) == Count(s)
    decreases |s|
  {
    if s != "" {
      EscapeCounts(s[1..]);
      CountAppend(EscapeChar(s[0]), Escape(s[1..]));
      CountPair('^', s[0]);
    }
  }

  lemma CountPair(c: char, d: char)
    ensures Count([d]) == if d == 's' then 1 else 0
    ensures c != 's' ==> Count([c, d]) == Count([d])
  {
    assert [c, d][1..] == [d] && [d][1..] == "";
  }

  lemma {:induction false} JoinCounts(ts: seq<string>)
    requires ts != []
    ensures Count(Join(EscapeAll(ts), ",")) == TokensCount(Brackets(ts))
    decreases |ts|
  {
    hide Escape, Count;
    EscapeCounts(ts[0]);
    EscapeAllCons(ts);
    assert Brackets(ts)[1..] == Brackets(ts[1..]);
    if |ts| > 1 {
      JoinCounts(ts[1..]);
      var first, rest := EscapeAll(ts)[0], Join(EscapeAll(ts[1..]), ",");
      CountAppend(first, ",");
      CountAppend(first + ",", rest);
      CountNone(",");
    } else {
      assert Brackets(ts[1..]) == [];
    }
  }

  lemma NumberCountsNone(x: Number)
    ensures Count(NumberText(x)) == 0
  {
    CountNone(NumberText(x));
  }

  lemma ParamCounts(p: Part)
    ensures Count(Param(p)) == TokensCount(ParamTokens(p))
  {
    hide Count;
    if p.side != "" {
      CountAppend(";s=", p.side);
      CountAppend(";", "s=");
      CountAppend("s", "=");
      CountPair(';', 's');
      CountNone(";");
      CountNone("=");
      assert ";" + "s=" == ";s=" && "s" + "=" == "s=";
      assert ParamTokens(p)[1..] == [];
    } else {
      CountNone("");
    }
  }

  lemma IdCounts(p: Part)
    ensures Count(IdText(p)) == TokensCount(IdTokens(p))
  {
    hide Count, Escape, Param, ParamTokens;
    CountNone("");
    if p.id != "" {
      CountAppend("[", Escape(p.id));
      CountAppend("[" + Escape(p.id), Param(p));
      CountAppend("[" + Escape(p.id) + Param(p), "]");
      CountNone("[");
      CountNone("]");
      EscapeCounts(p.id);
      ParamCounts(p);
      assert IdTokens(p)[1..] == ParamTokens(p);
    }
  }

  lemma AssertionCounts(p: Part)
    ensures Count(AssertionText(p)) == TokensCount(AssertionTokens(p))
  {
    hide Count, Param, ParamTokens, Brackets, TokensCount;
    var shown := Shown(p);
    if shown == [] {
      CountNone("");
      NoTokens();
    } else {
      var inner := Join(EscapeAll(p.text), ",");
      assert inner == Join(EscapeAll(shown), ",") by {
        if p.text == [] {
          assert EscapeAll(shown)[0] == "";
        }
      }
      JoinCounts(shown);
      CountAppend("[", inner);
      CountAppend("[" + inner, Param(p));
      CountAppend("[" + inner + Param(p), "]");
      CountNone("[");
      CountNone("]");
      ParamCounts(p);
      TokensCountAppend(Brackets(shown), ParamTokens(p));
    }
  }

  lemma NoTokens()
    ensures TokensCount([]) == 0
  {
  }

  lemma {:induction false} JoinHasNone(ts: seq<string>)
    requires forall k :: 0 <= k < |ts| ==> NumeralOrNaN(ts[k])
    ensures forall k :: 0 <= k < |Join(ts, ":")| ==> Join(ts, ":")[k] != 's'
    decreases |ts|
  {
    hide ParseFloat;
    if |ts| > 1 {
      JoinHasNone(ts[1..]);
      assert NumeralOrNaN(ts[0]);
    } else if |ts| == 1 {
      assert NumeralOrNaN(ts[0]);
    }
  }

  lemma NumbersCountNone(p: Part)
    requires Canonical(p)
    ensures Count("/" + NumberText(p.index)) == 0 && Count(OffsetText(p)) == 0 && Count(TemporalText(p)) == 0 && Count(SpatialText(p)) == 0
  {
    hide Count, NumberText, Join, ParseFloat;
    CountNone("");
    NumberCountsNone(p.index);
    CountAppend("/", NumberText(p.index));
    CountNone("/");
    if p.offset.Some? {
      NumberCountsNone(p.offset.value);
      CountAppend(":", NumberText(p.offset.value));
      CountNone(":");
    }
    CountNone(TemporalText(p));
    JoinHasNone(p.spatial);
    CountNone(SpatialText(p));
  }

  lemma NumberTokensCountNone(p: Part)
    ensures TokensCount([Step(p.index)]) == 0 && TokensCount(OffsetTokens(p)) == 0 && TokensCount(TemporalTokens(p)) == 0
  {
    assert [Step(p.index)][1..] == [];
    assert OffsetTokens(p) != [] ==> OffsetTokens(p)[1..] == [];
    assert TemporalTokens(p) != [] ==> TemporalTokens(p)[1..] == [];
  }

  lemma PartCounts(p: Part)
    requires Canonical(p)
    ensures Count(PartToString(p)) == TokensCount(PartFields(p))
  {
    hide Count, TokensCount, NumberText, IdText, OffsetText, TemporalText, SpatialText, AssertionText;
    hide IdTokens, OffsetTokens, TemporalTokens, Spatials, AssertionTokens;
    NumbersCountNone(p);
    IdCounts(p);
    AssertionCounts(p);
    NumberTokensCountNone(p);
    NumbersHaveNoSides(p.spatial);
    var t1 := "/" + NumberText(p.index);
    var t2 := t1 + IdText(p);
    var t3 := t2 + OffsetText(p);
    var t4 := t3 + TemporalText(p);
    CountAppend(t1, IdText(p));
    CountAppend(t2, OffsetText(p));
    CountAppend(t3, TemporalText(p));
    CountAppend(t4, SpatialText(p));
    CountAppend(t4 + SpatialText(p), AssertionText(p));
    var u1 := [Step(p.index)];
    var u2 := u1 + IdTokens(p);
    var u3 := u2 + OffsetTokens(p);
    var u4 := u3 + TemporalTokens(p);
    TokensCountAppend(u1, IdTokens(p));
    TokensCountAppend(u2, OffsetTokens(p));
    TokensCountAppend(u3, TemporalTokens(p));
    TokensCountAppend(u4, Spatials(p.spatial));
    TokensCountAppend(u4 + Spatials(p.spatial), AssertionTokens(p));
  }

  predicate GoodPiece(x: Piece) {
    match x
    case Whole(p) => Canonical(p)
    case Mark(c) => c == '!' || c == ','
  }

  predicate GoodPieces(xs: seq<Piece>) {
    forall x <- xs :: GoodPiece(x)
  }

  lemma GoodFirst(xs: seq<Piece>)
    requires xs != []
    ensures GoodPieces(xs) <==> GoodPiece(xs[0]) && GoodPieces(xs[1..])
  {
    hide GoodPiece;
    assert xs == [xs[0]] + xs[1..];
  }

  lemma {:induction false} TextCounts(xs: seq<Piece>)
    requires GoodPieces(xs)
    ensures Count(Text(xs)) == TokensCount(Fields(xs))
    decreases |xs|
  {
    hide Count, TokensCount, Canonical, PartToString, PartFields;
    if xs == [] {
      CountNone("");
      NoTokens();
    } else {
      GoodFirst(xs);
      TextCounts(xs[1..]);
      PieceCounts(xs[0]);
      CountAppend(PieceText(xs[0]), Text(xs[1..]));
      TokensCountAppend(PieceFields(xs[0]), Fields(xs[1..]));
    }
  }

  lemma PieceCounts(x: Piece)
    requires GoodPiece(x)
    ensures Count(PieceText(x)) == TokensCount(PieceFields(x))
  {
    hide Canonical, PartToString, PartFields;
    match x
    case Whole(p) => PartCounts(p);
    case Mark(c) =>
      CountNone([c]);
      assert PieceFields(x)[1..] == [];
  }
}
