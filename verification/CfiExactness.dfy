/** Exactly which identifiers are tokenized as they were printed: sides are printed without escapes, so a side that is not
    plain is misread, and so is a spatial offset after one that is not a number. */
module CfiExactness {
  import opened Wrappers
  import opened CfiSyntax
  import opened CfiPrintable
  import opened CfiScan
  import opened CfiFields

  // ----- A side that is not plain

  /** What reading a parameter's value makes of a text: the value, when a semicolon or a bracket ends it. */
  function ReadValue(text: string, escape: bool): Option<string>
    decreases text
  {
    if text == "" then None
    else if !escape && text[0] == '^' then ReadValue(text[1..], true)
    else if !escape && text[0] == '=' then None
    else if !escape && (text[0] == ';' || text[0] == ']') then Some("")
    else match ReadValue(text[1..], false)
      case None => None
      case Some(value) => Some([text[0]] + value)
  }

  /** The value that is read is pushed as the side, or the letter that names it is lost. */
  ghost predicate SideOrLoss(s: Scan, text: string, value: Option<string>) {
    var tokens := Finished(s, text);
    if value.Some? then s.tokens + [Parameter("s", s.value + value.value)] <= tokens
    else TokensCount(tokens) < Kept(s) + Count(text)
  }

  lemma {:induction false} ValueIsRead(s: Scan, text: string)
    requires s.state == InParameter("s")
    ensures SideOrLoss(s, text, ReadValue(text, s.escape))
    decreases text
  {
    hide Next, Kept, Count, TokensCount;
    if text == "" {
      NothingPushed(s);
    } else {
      var c := text[0];
      var next := Next(s, Some(c));
      assert Finished(s, text) == Finished(next, text[1..]);
      ParameterStep(s, c);
      CountFirst(text);
      if !s.escape && c == '=' {
        FinishedKeeps(next, text[1..]);
      } else if !s.escape && (c == ';' || c == ']') {
        FinishedGrows(next, text[1..]);
        assert s.value + "" == s.value;
      } else {
        ValueIsRead(next, text[1..]);
        if s.escape || c != '^' {
          var value := ReadValue(text[1..], false);
          assert value.Some? ==> s.value + [c] + value.value == s.value + ([c] + value.value);
        }
      }
    }
  }

  lemma NothingPushed(s: Scan)
    requires s.state == InParameter("s")
    ensures Finished(s, "") == s.tokens && TokensCount(s.tokens) < Kept(s)
  {
    assert Count("s") == 1 + Count("s"[1..]) == 1;
  }

  lemma CountFirst(text: string)
    requires text != ""
    ensures Count(text) == (if text[0] == 's' then 1 else 0) + Count(text[1..])
  {
  }

  /** One character of a side. */
  lemma ParameterStep(s: Scan, c: char)
    requires s.state == InParameter("s")
    ensures var next := Next(s, Some(c));
            if !s.escape && c == '^' then next == s.(escape := true) && Kept(next) == Kept(s)
            else if !s.escape && c == '=' then Kept(next) < Kept(s)
            else if !s.escape && (c == ';' || c == ']') then next.tokens == s.tokens + [Parameter("s", s.value)]
            else next == s.(value := s.value + [c], escape := false) && Kept(next) == Kept(s) + if c == 's' then 1 else 0
  {
    hide TokensCount;
    assert Count("s") == 1 + Count("s"[1..]) == 1;
    CountAppend(s.value, [c]);
    assert Count([c]) == (if c == 's' then 1 else 0) + Count([c][1..]);
    NoLetters();
  }

  /** The leading run of carets. */
  function Carets(text: string): (n: nat)
    ensures n <= |text|
    ensures n < |text| ==> text[n] != '^'
  {
    if text == "" || text[0] != '^' then 0 else 1 + Carets(text[1..])
  }

  /** Of carets in a row, every second one is read as an escape. */
  lemma {:induction false} HalfTheCarets(text: string)
    requires ReadValue(text, false).Some?
    ensures Carets(ReadValue(text, false).value) == Carets(text) / 2
    decreases |text|
  {
    var value := ReadValue(text, false).value;
    if text[0] == '^' {
      assert value[0] == text[1] && value[1..] == ReadValue(text[2..], false).value;
      if text[1] == '^' {
        HalfTheCarets(text[2..]);
        assert Carets(text) == 1 + Carets(text[1..]) == 2 + Carets(text[1..][1..]);
        assert text[1..][1..] == text[2..];
      } else {
        assert Carets(text) == 1 + Carets(text[1..]) == 1;
      }
    }
  }

  lemma {:induction false} CaretsThen(s: string, rest: string)
    requires rest != "" && rest[0] != '^'
    ensures Carets(s + rest) == Carets(s)
    decreases |s|
  {
    if s == "" {
      assert s + rest == rest;
    } else {
      assert (s + rest)[1..] == s[1..] + rest;
      CaretsThen(s[1..], rest);
    }
  }

  /** A side that is not plain is never the value that is read from it, whatever follows the bracket after it. */
  lemma {:induction false} SideIsMisread(side: string, rest: string)
    requires !PlainSide(side)
    ensures ReadValue(side + "]" + rest, false) != Some(side)
    decreases |side|
  {
    var text := side + "]" + rest;
    assert text == side + ("]" + rest);
    if side[0] == '^' {
      CaretsThen(side, "]" + rest);
      if ReadValue(text, false).Some? {
        HalfTheCarets(text);
      }
    } else if side[0] != '=' && side[0] != ';' && side[0] != ']' {
      assert text[1..] == side[1..] + "]" + rest;
      assert !PlainSide(side[1..]);
      SideIsMisread(side[1..], rest);
      var value := ReadValue(text[1..], false);
      assert value.Some? ==> ([side[0]] + value.value)[1..] == value.value;
    }
  }

  // ----- The first part that is misread

  /** Reading a side that is not plain loses a letter or gives other sides, whatever follows it. */
  lemma SideDeviates(s: Scan, before: string, tokens: seq<Token>, head: seq<Token>, side: string, rest: string, expected: seq<Token>)
    requires Run(s, before) == Scan(tokens, InParameter("s"), false, "") && Alike(tokens, head)
    requires !PlainSide(side) && Count(rest) <= TokensCount(expected)
    ensures Deviates(Finished(s, before + (side + "]" + rest)), head + [Parameter("s", side)] + expected)
  {
    hide Next, Run, Count, TokensCount, ReadValue, PlainSide, SideValues;
    var s1 := Scan(tokens, InParameter("s"), false, "");
    var text := side + "]" + rest;
    RunAppend(s, before, text);
    ValueIsRead(s1, text);
    SideIsMisread(side, rest);
    CountAppend(side, "]");
    CountAppend(side + "]", rest);
    CountNone("]");
    SideTokenCounts(tokens, head, side, expected);
    if ReadValue(text, false).Some? {
      var value := ReadValue(text, false).value;
      assert "" + value == value;
      OtherSide(Finished(s1, text), tokens, value);
      OtherSide(head + [Parameter("s", side)] + expected, head, side);
    }
  }

  lemma OtherSide(all: seq<Token>, tokens: seq<Token>, side: string)
    requires tokens + [Parameter("s", side)] <= all
    ensures |SideValues(tokens)| < |SideValues(all)| && SideValues(all)[|SideValues(tokens)|] == side
  {
    hide SideValues;
    var first := tokens + [Parameter("s", side)];
    assert all == first + all[|first|..];
    SideValuesAppend(first, all[|first|..]);
    SideValuesPush(tokens, Parameter("s", side));
  }

  lemma SideTokenCounts(tokens: seq<Token>, head: seq<Token>, side: string, expected: seq<Token>)
    requires Alike(tokens, head)
    ensures TokensCount(head + [Parameter("s", side)] + expected) == TokensCount(tokens) + 1 + Count(side) + TokensCount(expected)
    ensures Kept(Scan(tokens, InParameter("s"), false, "")) == TokensCount(tokens) + 1
  {
    hide TokensCount;
    TokensCountPush(head, Parameter("s", side));
    TokensCountAppend(head + [Parameter("s", side)], expected);
    assert Count("s") == 1 + Count("s"[1..]) == 1;
  }

  /** The start of a parameter. */
  lemma OpenParameter(s: Scan)
    requires s.state.InBracket? && !s.escape
    ensures Run(s, ";s=") == Scan(s.tokens + [Bracket(s.value)], InParameter("s"), false, "")
  {
    hide Run;
    var s1 := Scan(s.tokens + [Bracket(s.value)], InParameter("s"), false, "");
    RunTwo(s, ';', 's');
    RunOne(s1.(state := InParameter(""), value := "s"), '=');
    RunAppend(s, ";s", "=");
    assert "" + ['s'] == "s" && ";s" + "=" == ";s=";
  }

  /** A part up to its side, when it has an id. */
  function BeforeIdSide(p: Part): string {
    "/" + NumberText(p.index) + ("[" + Escape(p.id) + ";s=")
  }

  lemma IdSideOpens(s: Scan, p: Part)
    requires Settled(s)
    ensures Run(s, BeforeIdSide(p)) == Scan(Settle(s) + [Step(p.index)] + [Bracket(p.id)], InParameter("s"), false, "")
  {
    hide Next, Run, Escape, NumberText, Settle;
    var number := "/" + NumberText(p.index);
    StepScan(s, p);
    var s1 := Run(s, number);
    RunAppend(s, number, "[" + Escape(p.id) + ";s=");
    Delimit(s1, '[');
    RunOne(s1, '[');
    var s2 := Scan(Settle(s1), InBracket, false, "");
    RunAppend(s1, "[", Escape(p.id));
    EscapeScan(s2, p.id);
    assert "" + p.id == p.id;
    RunAppend(s1, "[" + Escape(p.id), ";s=");
    OpenParameter(s2.(value := p.id));
  }

  /** What follows the side in the id's bracket. */
  function AfterId(p: Part): string {
    OffsetText(p) + TemporalText(p) + SpatialText(p) + AssertionText(p)
  }

  function AfterIdFields(p: Part): seq<Token> {
    OffsetTokens(p) + TemporalTokens(p) + Spatials(p.spatial) + AssertionTokens(p)
  }

  lemma IdPartText(p: Part)
    requires p.id != "" && p.side != ""
    ensures PartToString(p) == BeforeIdSide(p) + p.side + "]" + AfterId(p)
    ensures PartFields(p) == [Step(p.index)] + [Bracket(p.id)] + [Parameter("s", p.side)] + AfterIdFields(p)
  {
    hide NumberText, IdText, Escape, OffsetText, TemporalText, SpatialText, AssertionText;
    hide IdTokens, OffsetTokens, TemporalTokens, Spatials, AssertionTokens;
    IdBracket(p);
  }

  lemma IdBracket(p: Part)
    requires p.id != "" && p.side != ""
    ensures IdText(p) == "[" + Escape(p.id) + ";s=" + p.side + "]"
    ensures IdTokens(p) == [Bracket(p.id)] + [Parameter("s", p.side)]
  {
    hide Escape;
  }

  lemma IdPartDeviates(s: Scan, p: Part, rest: string, expected: seq<Token>)
    requires Settled(s) && Canonical(p) && !PlainSide(p.side) && p.id != "" && Count(rest) <= TokensCount(expected)
    ensures Deviates(Finished(s, PartToString(p) + rest), Settle(s) + (PartFields(p) + expected))
  {
    hide Next, Run, Count, TokensCount, Settle, Settled, PlainSide;
    hide Finished, BeforeIdSide, AfterId, AfterIdFields, PartToString, PartFields;
    hide Deviates, SideValues;
    PlainIfEmpty(p.side);
    IdSideOpens(s, p);
    IdPartText(p);
    RestCounts(p, rest, expected);
    var tokens, side := Settle(s) + [Step(p.index)] + [Bracket(p.id)], [Parameter("s", p.side)];
    SideDeviates(s, BeforeIdSide(p), tokens, tokens, p.side, AfterId(p) + rest, AfterIdFields(p) + expected);
    assert PartToString(p) + rest == BeforeIdSide(p) + (p.side + "]" + (AfterId(p) + rest));
    var fields := [Step(p.index)] + [Bracket(p.id)] + side + AfterIdFields(p);
    assert Settle(s) + (fields + expected) == tokens + side + (AfterIdFields(p) + expected);
  }

  lemma PlainIfEmpty(side: string)
    ensures side == "" ==> PlainSide(side)
  {
  }

  lemma RestCounts(p: Part, rest: string, expected: seq<Token>)
    requires Canonical(p) && Count(rest) <= TokensCount(expected)
    ensures Count(AfterId(p) + rest) <= TokensCount(AfterIdFields(p) + expected)
  {
    hide Count, TokensCount, OffsetText, TemporalText, SpatialText;
    hide AssertionText, OffsetTokens, TemporalTokens, Spatials, AssertionTokens;
    NumbersCountNone(p);
    AssertionCounts(p);
    CountAppend(OffsetText(p), TemporalText(p));
    CountAppend(OffsetText(p) + TemporalText(p), SpatialText(p));
    CountAppend(OffsetText(p) + TemporalText(p) + SpatialText(p), AssertionText(p));
    CountAppend(AfterId(p), rest);
    TokensCountAppend(AfterIdFields(p), expected);
    TokensCountAppend(OffsetTokens(p) + TemporalTokens(p) + Spatials(p.spatial), AssertionTokens(p));
  }

  /** A part up to its texts, when it has no id. */
  function Head(p: Part): string {
    "/" + NumberText(p.index) + OffsetText(p) + TemporalText(p) + SpatialText(p)
  }

  function HeadTokens(p: Part): seq<Token> {
    [Step(p.index)] + OffsetTokens(p) + TemporalTokens(p) + SpatialTokens(p.spatial)
  }

  lemma HeadScan(s: Scan, p: Part)
    requires Settled(s) && Canonical(p)
    ensures Settled(Run(s, Head(p))) && Settle(Run(s, Head(p))) == Settle(s) + HeadTokens(p)
  {
    hide Next, Run, Settled, Settle, Canonical, NumberText, OffsetText, TemporalText, SpatialText;
    hide OffsetTokens, TemporalTokens, SpatialTokens;
    StepScan(s, p);
    var t1 := "/" + NumberText(p.index);
    RunAppend(s, t1, OffsetText(p));
    OffsetScan(Run(s, t1), p);
    var t2 := t1 + OffsetText(p);
    RunAppend(s, t2, TemporalText(p));
    TemporalScan(Run(s, t2), p);
    var t3 := t2 + TemporalText(p);
    RunAppend(s, t3, SpatialText(p));
    SpatialScan(Run(s, t3), p);
  }

  function TextsBeforeSide(p: Part): string {
    "[" + Join(EscapeAll(p.text), ",") + ";s="
  }

  lemma TextSideOpens(s: Scan, p: Part)
    requires Settled(s) && p.id == "" && p.side != ""
    ensures Run(s, TextsBeforeSide(p)) == Scan(Settle(s) + Brackets(Shown(p)), InParameter("s"), false, "")
  {
    hide Next, Run;
    var shown := Shown(p);
    var inner := Join(EscapeAll(shown), ",");
    assert inner == Join(EscapeAll(p.text), ",") by {
      if p.text == [] {
        assert EscapeAll(shown)[0] == "";
      }
    }
    Delimit(s, '[');
    RunOne(s, '[');
    var s1 := Scan(Settle(s), InBracket, false, "");
    RunAppend(s, "[", inner);
    BracketsScan(s1, shown);
    RunAppend(s, "[" + inner, ";s=");
    OpenParameter(Run(s1, inner));
  }

  lemma {:induction false} SpatialsLength(ts: seq<string>)
    ensures |Spatials(ts)| == |ts| && |Offsets(ts)| == |ts|
    ensures forall k :: 0 <= k < |ts| ==> Spatials(ts)[k] == Spatial(ts[k]) && Offsets(ts)[k].Offset?
  {
    if ts != [] {
      SpatialsLength(ts[1..]);
    }
  }

  /** Spatial offsets are tokenized as such exactly up to the first that is not a number. */
  lemma SpatialTokensExactIff(ts: seq<string>)
    ensures |SpatialTokens(ts)| == |Spatials(ts)|
    ensures SpatialTokens(ts) == Spatials(ts) <==> AfterNaN(ts) == []
  {
    hide Spatials, Offsets, OffsetRead;
    SpatialsLength(ts);
    SpatialsLength(UpToNaN(ts));
    SpatialsLength(AfterNaN(ts));
    if AfterNaN(ts) == [] {
      assert UpToNaN(ts) == ts;
      assert Spatials(ts) + Offsets([]) == Spatials(ts);
    } else {
      assert SpatialTokens(ts)[|UpToNaN(ts)|] == Offsets(AfterNaN(ts))[0];
    }
  }

  lemma PrefixesDiffer(tokens: seq<Token>, a: seq<Token>, b: seq<Token>, rest: seq<Token>)
    requires a <= tokens && |a| == |b| && a != b
    ensures tokens != b + rest
  {
    assert (b + rest)[..|b|] == b;
  }

  function HeadFields(p: Part): seq<Token> {
    [Step(p.index)] + OffsetTokens(p) + TemporalTokens(p) + Spatials(p.spatial)
  }

  lemma TextPartText(p: Part)
    requires p.id == "" && p.side != ""
    ensures PartToString(p) == Head(p) + TextsBeforeSide(p) + p.side + "]"
    ensures PartFields(p) == HeadFields(p) + Brackets(Shown(p)) + [Parameter("s", p.side)]
  {
    hide NumberText, EscapeAll, Join, OffsetText, TemporalText;
    hide SpatialText, OffsetTokens, TemporalTokens, Spatials, Brackets;
    assert IdText(p) == "" && IdTokens(p) == [];
    assert AssertionText(p) == TextsBeforeSide(p) + p.side + "]";
    assert AssertionTokens(p) == Brackets(Shown(p)) + [Parameter("s", p.side)];
  }

  lemma HeadsAreAlike(s: seq<Token>, p: Part, shown: seq<Token>)
    ensures Alike(s + HeadTokens(p) + shown, s + HeadFields(p) + shown)
  {
    hide TokensCount, SideValues, OffsetTokens, TemporalTokens, SpatialTokens, Spatials;
    var first := [Step(p.index)] + OffsetTokens(p) + TemporalTokens(p);
    SpatialTokensAreAlike(p.spatial);
    AlikeBetween(s + first, SpatialTokens(p.spatial), Spatials(p.spatial), shown);
    assert s + first + SpatialTokens(p.spatial) + shown == s + HeadTokens(p) + shown;
    assert s + first + Spatials(p.spatial) + shown == s + HeadFields(p) + shown;
  }

  lemma TextPartDeviates(s: Scan, p: Part, rest: string, expected: seq<Token>)
    requires Settled(s) && Canonical(p) && !PlainSide(p.side) && p.id == "" && Count(rest) <= TokensCount(expected)
    ensures Deviates(Finished(s, PartToString(p) + rest), Settle(s) + (PartFields(p) + expected))
  {
    hide Next, Run, Count, TokensCount, Settle, Settled, Canonical, PlainSide, Finished, Deviates, Alike, SideValues;
    hide Head, TextsBeforeSide, HeadTokens, HeadFields, Brackets, PartToString, PartFields;
    PlainIfEmpty(p.side);
    HeadScan(s, p);
    TextPartText(p);
    var s1, side, shown := Run(s, Head(p)), [Parameter("s", p.side)], Brackets(Shown(p));
    TextSideOpens(s1, p);
    var before := Head(p) + TextsBeforeSide(p);
    RunAppend(s, Head(p), TextsBeforeSide(p));
    HeadsAreAlike(Settle(s), p, shown);
    SideDeviates(s, before, Settle(s1) + shown, Settle(s) + HeadFields(p) + shown, p.side, rest, expected);
    assert PartToString(p) + rest == before + (p.side + "]" + rest);
    assert Settle(s) + (PartFields(p) + expected) == Settle(s) + HeadFields(p) + shown + side + expected;
  }

  lemma SumsDiffer(a: seq<Token>, b: seq<Token>, c: seq<Token>)
    requires b != c && |b| == |c|
    ensures a + b != a + c && |a + b| == |a + c|
  {
    assert (a + b)[|a|..] == b && (a + c)[|a|..] == c;
  }

  lemma FinishedFrom(s: Scan, before: string, rest: string)
    ensures Finished(s, before + rest) == Finished(Run(s, before), rest)
    ensures Run(s, before).tokens <= Finished(s, before + rest)
  {
    hide Run, Next;
    RunAppend(s, before, rest);
    FinishedGrows(Run(s, before), rest);
  }

  lemma PartDeviates(s: Scan, p: Part, rest: string, expected: seq<Token>)
    requires Settled(s) && Canonical(p) && !PlainSide(p.side) && Count(rest) <= TokensCount(expected)
    ensures Deviates(Finished(s, PartToString(p) + rest), Settle(s) + (PartFields(p) + expected))
  {
    hide Settled, Settle, Canonical, PlainSide, Count, TokensCount, Finished, PartToString, PartFields, Deviates;
    if p.id == "" {
      TextPartDeviates(s, p, rest, expected);
    } else {
      IdPartDeviates(s, p, rest, expected);
    }
  }

  // ----- Tokens come back exactly when sides are plain and only last spatial offsets are not numbers

  /** What follows a piece: nothing, a step, a separator, or the bracket that closes the wrapper. */
  predicate Fresh(rest: string) {
    rest == "" || rest[0] == '/' || rest[0] == '!' || rest[0] == ',' || rest[0] == ')'
  }

  lemma FreshKeeps(s: Scan, rest: string)
    requires Settled(s) && Fresh(rest)
    ensures Settle(s) <= Finished(s, rest)
  {
    hide Run, ParseFloat, ParseInt;
    if rest == "" {
      RunNone(s);
      EndScan(s);
    } else {
      FirstOfRest(s, rest);
      FinishedGrows(Next(s, Some(rest[0])), rest[1..]);
    }
  }

  lemma FirstOfRest(s: Scan, rest: string)
    requires Settled(s) && Fresh(rest) && rest != ""
    ensures Next(s, Some(rest[0])).tokens == Settle(s)
    ensures Finished(s, rest) == Finished(Next(s, Some(rest[0])), rest[1..])
  {
    hide ParseFloat, ParseInt;
  }

  predicate ExactPart(p: Part) {
    PlainSide(p.side) && AfterNaN(p.spatial) == []
  }

  predicate ExactPiece(x: Piece) {
    x.Whole? ==> ExactPart(x.part)
  }

  lemma PartTokensExactIff(p: Part)
    ensures |PartTokens(p)| == |PartFields(p)|
    ensures PartTokens(p) == PartFields(p) <==> AfterNaN(p.spatial) == []
  {
    hide IdTokens, OffsetTokens, TemporalTokens, SpatialTokens, Spatials, AssertionTokens;
    SpatialTokensExactIff(p.spatial);
    var first := [Step(p.index)] + IdTokens(p) + OffsetTokens(p) + TemporalTokens(p);
    var k := |first| + |Spatials(p.spatial)|;
    assert PartTokens(p)[|first|..k] == SpatialTokens(p.spatial);
    assert PartFields(p)[|first|..k] == Spatials(p.spatial);
  }

  lemma TextIsFresh(xs: seq<Piece>, tail: string)
    requires GoodPieces(xs) && Fresh(tail)
    ensures Fresh(Text(xs) + tail)
  {
    hide NumberText, IdText, OffsetText, TemporalText, SpatialText, AssertionText, Canonical;
    if xs == [] {
      assert "" + tail == tail;
    } else {
      assert GoodPiece(xs[0]);
      assert PieceText(xs[0]) != "" && (Text(xs) + tail)[0] == PieceText(xs[0])[0];
    }
  }

  predicate ExactPieces(xs: seq<Piece>) {
    forall x <- xs :: ExactPiece(x)
  }

  lemma ExactFirst(xs: seq<Piece>)
    requires xs != []
    ensures ExactPieces(xs) <==> ExactPiece(xs[0]) && ExactPieces(xs[1..])
  {
    hide ExactPiece;
    assert xs == [xs[0]] + xs[1..];
  }

  lemma {:induction false} FieldsExactIff(s: Scan, xs: seq<Piece>, tail: string)
    requires Settled(s) && GoodPieces(xs) && (tail == "" || tail == ")")
    ensures Finished(s, Text(xs) + tail) == Settle(s) + Fields(xs) <==> ExactPieces(xs)
    decreases |xs|
  {
    hide Next, Run, Settle, Settled, Finished, GoodPieces, ExactPieces;
    hide ExactPiece, PieceText, PieceFields, Count, TokensCount, Fresh;
    if xs == [] {
      NothingLeft(s, tail);
      NothingExact();
      assert Settle(s) + [] == Settle(s) && "" + tail == tail;
    } else {
      var x, ys := xs[0], xs[1..];
      var rest := Text(ys) + tail;
      GoodFirst(xs);
      ExactFirst(xs);
      assert Text(xs) + tail == PieceText(x) + rest;
      assert Settle(s) + PieceFields(x) + Fields(ys) == Settle(s) + (PieceFields(x) + Fields(ys));
      if ExactPiece(x) {
        ExactPieceScan(s, x, rest);
        FieldsExactIff(Run(s, PieceText(x)), ys, tail);
      } else {
        RestIsCounted(ys, tail);
        InexactPieceScan(s, x, rest, Fields(ys));
      }
    }
  }

  lemma NothingExact()
    ensures ExactPieces([])
  {
  }

  lemma RestIsCounted(xs: seq<Piece>, tail: string)
    requires GoodPieces(xs) && (tail == "" || tail == ")")
    ensures Fresh(Text(xs) + tail) && Count(Text(xs) + tail) == TokensCount(Fields(xs))
  {
    hide GoodPieces, Count, TokensCount, Text;
    TextIsFresh(xs, tail);
    TextCounts(xs);
    TailCounts(Text(xs), tail);
  }

  lemma TailCounts(text: string, tail: string)
    requires tail == "" || tail == ")"
    ensures Count(text + tail) == Count(text)
  {
    hide Count;
    CountAppend(text, tail);
    CountNone(tail);
  }

  lemma ExactPieceScan(s: Scan, x: Piece, rest: string)
    requires Settled(s) && GoodPiece(x) && ExactPiece(x)
    ensures Settled(Run(s, PieceText(x))) && Settle(Run(s, PieceText(x))) == Settle(s) + PieceFields(x)
    ensures Finished(s, PieceText(x) + rest) == Finished(Run(s, PieceText(x)), rest)
  {
    hide Next, Run, Settle, Settled, PartToString, PartFields, PartTokens, Canonical, PlainSide;
    RunAppend(s, PieceText(x), rest);
    match x
    case Whole(p) =>
      PartScan(s, p);
      PartTokensExactIff(p);
    case Mark(c) => SeparatorScan(s, c);
  }

  lemma InexactPieceScan(s: Scan, x: Piece, rest: string, expected: seq<Token>)
    requires Settled(s) && GoodPiece(x) && !ExactPiece(x) && Fresh(rest) && Count(rest) <= TokensCount(expected)
    ensures Finished(s, PieceText(x) + rest) != Settle(s) + (PieceFields(x) + expected)
  {
    hide Next, Run, Settle, Settled, PartToString, PartFields, PartTokens;
    hide Canonical, PlainSide, Count, TokensCount, Finished, Fresh;
    var p := x.part;
    if PlainSide(p.side) {
      PartScan(s, p);
      PartTokensExactIff(p);
      var s1 := Run(s, PartToString(p));
      FinishedFrom(s, PartToString(p), rest);
      FreshKeeps(s1, rest);
      SumsDiffer(Settle(s), PartTokens(p), PartFields(p));
      PrefixesDiffer(Finished(s1, rest), Settle(s) + PartTokens(p), Settle(s) + PartFields(p), expected);
      assert Settle(s) + PartFields(p) + expected == Settle(s) + (PartFields(p) + expected);
    } else {
      PartDeviates(s, p, rest, expected);
    }
  }

  // ----- Identifiers

  ghost predicate ExactPath(path: Path) {
    forall k :: 0 <= k < |path| ==> ExactPart(path[k])
  }

  ghost predicate ExactPaths(paths: seq<Path>) {
    forall k :: 0 <= k < |paths| ==> ExactPath(paths[k])
  }

  ghost predicate ExactCfi(c: Cfi) {
    match c
    case Point(paths) => ExactPaths(paths)
    case Range(parent, start, end) => ExactPaths(parent) && ExactPaths(start) && ExactPaths(end)
    case OpenRange(_, _) => false
  }

  lemma PathPiecesAre(path: Path)
    ensures GoodPieces(PathPieces(path)) <==> CanonicalPath(path)
    ensures ExactPieces(PathPieces(path)) <==> ExactPath(path)
  {
    hide Canonical, ExactPart;
    forall k | 0 <= k < |path|
      ensures Whole(path[k]) in PathPieces(path)
    {
      assert PathPieces(path)[k] == Whole(path[k]);
    }
  }

  lemma PiecesAppend(xs: seq<Piece>, ys: seq<Piece>)
    ensures GoodPieces(xs + ys) <==> GoodPieces(xs) && GoodPieces(ys)
    ensures ExactPieces(xs + ys) <==> ExactPieces(xs) && ExactPieces(ys)
  {
    hide GoodPiece, ExactPiece;
  }

  lemma MarkIsFine(c: char)
    requires c == '!' || c == ','
    ensures GoodPieces([Mark(c)]) && ExactPieces([Mark(c)])
  {
  }

  lemma {:induction false} PathsPiecesAre(paths: seq<Path>)
    ensures GoodPieces(PathsPieces(paths)) <==> CanonicalPaths(paths)
    ensures ExactPieces(PathsPieces(paths)) <==> ExactPaths(paths)
    decreases |paths|
  {
    hide GoodPieces, ExactPieces, CanonicalPath, ExactPath, PathPieces;
    if paths == [] {
      NothingExact();
      NothingGood();
    } else {
      PathPiecesAre(paths[0]);
      if |paths| > 1 {
        PathsPiecesAre(paths[1..]);
        MarkIsFine('!');
        PiecesAppend(PathPieces(paths[0]), [Mark('!')]);
        PiecesAppend(PathPieces(paths[0]) + [Mark('!')], PathsPieces(paths[1..]));
      }
    }
  }

  lemma NothingGood()
    ensures GoodPieces([])
  {
  }

  lemma PiecesAre(c: Cfi)
    requires CanonicalCfi(c)
    ensures GoodPieces(Pieces(c)) && (ExactPieces(Pieces(c)) <==> ExactCfi(c))
  {
    hide GoodPieces, ExactPieces, CanonicalPaths, ExactPaths, PathsPieces;
    match c
    case Point(paths) => PathsPiecesAre(paths);
    case Range(parent, start, end) =>
      var a, b, e, comma := PathsPieces(parent), PathsPieces(start), PathsPieces(end), [Mark(',')];
      PathsPiecesAre(parent);
      PathsPiecesAre(start);
      PathsPiecesAre(end);
      MarkIsFine(',');
      PiecesAppend(a, comma);
      PiecesAppend(a + comma, b);
      PiecesAppend(a + comma + b, comma);
      PiecesAppend(a + comma + b + comma, e);
  }

  /** A printed identifier is tokenized field by field if and only if every side is plain, and no spatial offset but the
      last of its part is not a number. */
  lemma PrintedTokensIff(c: Cfi)
    requires CanonicalCfi(c)
    ensures Tokens(Unwrap(ToString(c))) == Fields(Pieces(c)) <==> ExactCfi(c)
  {
    hide Next, Run, Trim, Pieces, Fields, Text, GoodPieces, ExactPieces, CanonicalPaths, ExactCfi, ToInnerString;
    var inner := ToInnerString(c);
    PiecesAre(c);
    InnerText(c);
    InnerTrimmed(c);
    InnerStart(c);
    var tail := WrappedFinish(inner);
    FieldsExactIff(INITIAL, Pieces(c), tail);
    assert Settle(INITIAL) == [] && [] + Fields(Pieces(c)) == Fields(Pieces(c));
  }
}
