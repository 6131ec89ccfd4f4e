/** Which identifiers come back from the parser: exactly the printable ones. */
module CfiSides {
  import opened Wrappers
  import opened CfiSyntax
  import opened CfiPrintable
  import opened CfiScan
  import opened CfiRoundTrip
  import opened CfiParsed
  import opened CfiFields
  import opened CfiExactness
  import opened CfiTally

  // ----- Sides that are shorter than a bound, but for plain ones

  predicate Short(side: string, m: nat) {
    PlainSide(side) || |side| < m
  }

  predicate ShortParameter(t: Token, m: nat) {
    t.Parameter? && t.name == "s" ==> Short(t.value, m)
  }

  function ShortTokens(m: nat): TokenTest {
    (t: Token) => ShortParameter(t, m)
  }

  function ShortSides(m: nat): PartTest {
    (p: Part) => Short(p.side, m)
  }

  /** Every run of carets has an even length, so that none of them escapes what follows. */
  predicate EvenCarets(t: string)
    decreases |t|
  {
    if t == "" then true
    else if t[0] != '^' then EvenCarets(t[1..])
    else |t| >= 2 && t[1] == '^' && EvenCarets(t[2..])
  }

  predicate HasEvenCarets(p: Part) {
    EvenCarets(p.side)
  }

  // ----- Outside sides: no parameter named by them is being read

  predicate Outer(s: Scan, m: nat) {
    Pass(s.tokens, ShortTokens(m)) && (s.state.InParameter? ==> s.state.name == "" && !s.escape)
  }

  lemma PassPush(tokens: seq<Token>, t: Token, m: nat)
    ensures Pass(tokens + [t], ShortTokens(m)) <==> Pass(tokens, ShortTokens(m)) && ShortParameter(t, m)
  {
    hide Short;
    var longer := tokens + [t];
    assert longer[|tokens|] == t && ShortTokens(m)(t) == ShortParameter(t, m);
    assert forall k :: 0 <= k < |tokens| ==> longer[k] == tokens[k];
  }

  /** Whatever comes, a parameter only starts without a name, and without a value. */
  lemma OutsideChar(s: Scan, c: char, m: nat)
    requires Pass(s.tokens, ShortTokens(m)) && !s.state.InParameter?
    ensures var next := Next(s, Some(c)); Outer(next, m) && (next.state.InParameter? ==> next.value == "" && c == ';')
  {
    hide ParseFloat, ParseInt, Short, Pass, ShortTokens;
    match s.state {
      case Idle =>
      case InIndirection => PassPush(s.tokens, Indirection, m);
      case InComma => PassPush(s.tokens, Comma, m);
      case InStep => PassPush(s.tokens, Step(ParseInt(s.value)), m);
      case InOffset => PassPush(s.tokens, Offset(ParseInt(s.value)), m);
      case InTemporal => PassPush(s.tokens, Temporal(ParseFloat(s.value)), m);
      case InSpatial => PassPush(s.tokens, Spatial(ParseFloat(s.value)), m);
      case InBracket => PassPush(s.tokens, Bracket(s.value), m);
    }
  }

  lemma OuterChar(s: Scan, c: char, m: nat)
    requires Outer(s, m) && c != '^' && c != '='
    ensures Outer(Next(s, Some(c)), m)
  {
    hide ParseFloat, ParseInt, Short, Pass, ShortTokens;
    if s.state.InParameter? {
      PassPush(s.tokens, Parameter("", s.value), m);
    } else {
      OutsideChar(s, c, m);
    }
  }

  predicate Ordinary(text: string) {
    forall k :: 0 <= k < |text| ==> text[k] != '^' && text[k] != '='
  }

  lemma {:induction false} OuterText(s: Scan, text: string, m: nat)
    requires Outer(s, m) && Ordinary(text)
    ensures Outer(Run(s, text), m)
    decreases text
  {
    hide Next, Outer;
    if text != "" {
      OuterChar(s, text[0], m);
      OuterText(Next(s, Some(text[0])), text[1..], m);
    }
  }

  /** An escaped character, even if its escape is itself escaped by a caret before the bracket. */
  lemma OuterEscapeChar(s: Scan, c: char, m: nat)
    requires Outer(s, m)
    ensures Outer(Run(s, EscapeChar(c)), m)
  {
    hide Next, Pass, ShortTokens;
    if !Special(c) {
      RunOne(s, c);
      OuterChar(s, c, m);
    } else {
      RunTwo(s, '^', c);
      if s.state.InParameter? {
        EscapedInParameter(s, c);
      } else {
        OutsideChar(s, '^', m);
        OutsideChar(Next(s, Some('^')), c, m);
      }
    }
  }

  lemma EscapedInParameter(s: Scan, c: char)
    requires s.state.InParameter? && !s.escape
    ensures Next(Next(s, Some('^')), Some(c)) == s.(value := s.value + [c])
  {
  }

  lemma {:induction false} OuterEscape(s: Scan, text: string, m: nat)
    requires Outer(s, m)
    ensures Outer(Run(s, Escape(text)), m)
    decreases text
  {
    hide Next, Run, Outer, EscapeChar;
    if text == "" {
      RunNone(s);
    } else {
      RunAppend(s, EscapeChar(text[0]), Escape(text[1..]));
      OuterEscapeChar(s, text[0], m);
      OuterEscape(Run(s, EscapeChar(text[0])), text[1..], m);
    }
  }

  lemma {:induction false} OuterTexts(s: Scan, ts: seq<string>, m: nat)
    requires Outer(s, m)
    ensures Outer(Run(s, Join(EscapeAll(ts), ",")), m)
    decreases |ts|
  {
    hide Next, Run, Outer, Escape, EscapeAll, Join;
    if ts == [] {
      NothingJoined();
      RunNone(s);
    } else {
      JoinedFirst(ts);
      OuterEscape(s, ts[0], m);
      if |ts| > 1 {
        RunAppend(s, Escape(ts[0]), ",");
        RunAppend(s, Escape(ts[0]) + ",", Join(EscapeAll(ts[1..]), ","));
        OuterText(Run(s, Escape(ts[0])), ",", m);
        OuterTexts(Run(s, Escape(ts[0]) + ","), ts[1..], m);
      }
    }
  }

  lemma NothingJoined()
    ensures Join(EscapeAll([]), ",") == ""
  {
  }

  lemma JoinedFirst(ts: seq<string>)
    requires ts != []
    ensures Join(EscapeAll(ts), ",") ==
            if |ts| == 1 then Escape(ts[0]) else Escape(ts[0]) + "," + Join(EscapeAll(ts[1..]), ",")
  {
    hide Escape;
    EscapeAllCons(ts);
  }

  // ----- Inside a side: what is read is short, or plain so far

  predicate Inner(s: Scan, rest: string, m: nat) {
    && Pass(s.tokens, ShortTokens(m))
    && (|rest| <= m || PlainSide(rest))
    && (s.state.InParameter? ==>
          !s.escape && if PlainSide(s.value) then |s.value| + |rest| <= m || PlainSide(rest) else |s.value| + |rest| < m)
  }

  lemma PlainFirstChar(text: string)
    requires text != ""
    ensures PlainSide(text) <==> PlainSide([text[0]]) && PlainSide(text[1..])
  {
    assert text == [text[0]] + text[1..];
  }

  lemma PlainWith(value: string, c: char)
    ensures PlainSide(value + [c]) <==> PlainSide(value) && PlainSide([c])
    ensures PlainSide("")
  {
    var longer := value + [c];
    assert longer[|value|] == c && [c][0] == c;
    assert forall k :: 0 <= k < |value| ==> longer[k] == value[k];
  }

  lemma InnerChar(s: Scan, text: string, m: nat)
    requires text != "" && text[0] != '^' && Inner(s, text, m)
    ensures Inner(Next(s, Some(text[0])), text[1..], m)
  {
    hide ParseFloat, ParseInt, PlainSide, Pass, ShortTokens;
    PlainFirstChar(text);
    PlainWith(s.value, text[0]);
    PlainChar(text[0]);
    match s.state {
      case InParameter(name) => PassPush(s.tokens, Parameter(name, s.value), m);
      case _ => OutsideChar(s, text[0], m);
    }
  }

  lemma PlainChar(c: char)
    ensures PlainSide([c]) <==> c != '^' && c != ';' && c != '=' && c != ']'
  {
    assert [c][0] == c;
  }

  /** Two carets are read as one, as long as a parameter is read. */
  lemma InnerCarets(s: Scan, text: string, m: nat)
    requires |text| >= 2 && text[..2] == "^^" && Inner(s, text, m)
    ensures Inner(Run(s, "^^"), text[2..], m)
  {
    hide Next, PlainSide, Pass, ShortTokens;
    assert text[0] == text[..2][0] == '^';
    PlainFirstChar(text);
    PlainChar('^');
    PlainWith(s.value, '^');
    RunTwo(s, '^', '^');
    if s.state.InParameter? {
      EscapedInParameter(s, '^');
    } else {
      OutsideChar(s, '^', m);
      OutsideChar(Next(s, Some('^')), '^', m);
    }
  }

  lemma {:induction false} InnerSide(s: Scan, side: string, m: nat)
    requires EvenCarets(side) && Inner(s, side, m)
    ensures Inner(Run(s, side), "", m)
    decreases |side|
  {
    hide Next, Run, Inner;
    if side == "" {
      RunNone(s);
    } else if side[0] == '^' {
      assert side == "^^" + side[2..] && side[..2] == "^^";
      RunAppend(s, "^^", side[2..]);
      InnerCarets(s, side, m);
      InnerSide(Run(s, "^^"), side[2..], m);
    } else {
      assert side == [side[0]] + side[1..];
      RunAppend(s, [side[0]], side[1..]);
      RunOne(s, side[0]);
      InnerChar(s, side, m);
      InnerSide(Next(s, Some(side[0])), side[1..], m);
    }
  }

  lemma InnerOpens(s: Scan, side: string, m: nat)
    requires Outer(s, m) && (|side| <= m || PlainSide(side))
    ensures Inner(Next(s, Some('=')), side, m)
  {
    hide ParseFloat, ParseInt, Pass, ShortTokens;
    if !s.state.InParameter? {
      OutsideChar(s, '=', m);
    }
  }

  lemma InnerCloses(s: Scan, m: nat)
    requires Inner(s, "", m)
    ensures Outer(Next(s, Some(']')), m)
  {
    hide ParseFloat, ParseInt, PlainSide, Pass, ShortTokens;
    match s.state {
      case InParameter(name) => PassPush(s.tokens, Parameter(name, s.value), m);
      case _ => OutsideChar(s, ']', m);
    }
  }

  /** A bracket's parameter, however it is read, and the closing bracket. */
  lemma ParameterEnds(s: Scan, p: Part, m: nat)
    requires Outer(s, m) && EvenCarets(p.side) && (|p.side| <= m || PlainSide(p.side))
    ensures Outer(Run(s, Param(p) + "]"), m)
  {
    hide Next, Run, Outer, Inner, EvenCarets, PlainSide;
    if p.side == "" {
      assert Param(p) + "]" == "]";
      OuterText(s, "]", m);
    } else {
      var s1 := Run(s, ";s");
      OuterText(s, ";s", m);
      InnerOpens(s1, p.side, m);
      RunOne(s1, '=');
      RunAppend(s, ";s", "=");
      assert ";s" + "=" == ";s=" && Param(p) + "]" == ";s=" + p.side + "]";
      var s2 := Run(s, ";s=");
      InnerSide(s2, p.side, m);
      RunAppend(s, ";s=", p.side);
      RunAppend(s, ";s=" + p.side, "]");
      InnerCloses(Run(s2, p.side), m);
      RunOne(Run(s2, p.side), ']');
    }
  }

  // ----- Parts and pieces

  lemma {:induction false} JoinedNumeralsAreOrdinary(ts: seq<string>)
    requires forall k :: 0 <= k < |ts| ==> NumeralOrNaN(ts[k])
    ensures Ordinary(Join(ts, ":"))
    decreases |ts|
  {
    hide NumeralOrNaN, Ordinary;
    if ts == [] {
      OrdinaryAppend("", "");
    } else {
      assert NumeralOrNaN(ts[0]);
      NumeralIsOrdinary(ts[0]);
      JoinFirst(ts);
      if |ts| > 1 {
        JoinedNumeralsAreOrdinary(ts[1..]);
        OrdinaryAppend(":", Join(ts[1..], ":"));
        OrdinaryAppend(ts[0], ":" + Join(ts[1..], ":"));
      }
    }
  }

  lemma OrdinaryAppend(a: string, b: string)
    ensures Ordinary(a + b) <==> Ordinary(a) && Ordinary(b)
    ensures Ordinary("") && Ordinary(":")
  {
    assert forall k :: 0 <= k < |a| ==> (a + b)[k] == a[k];
    assert forall k :: 0 <= k < |b| ==> (a + b)[|a| + k] == b[k];
  }

  lemma NumeralIsOrdinary(t: string)
    requires NumeralOrNaN(t)
    ensures Ordinary(t)
  {
    hide ParseFloat;
  }

  lemma NumbersAreOrdinary(p: Part)
    requires Canonical(p)
    ensures Ordinary("/" + NumberText(p.index)) && Ordinary(OffsetText(p)) && Ordinary(TemporalText(p)) && Ordinary(SpatialText(p))
  {
    hide Join, NumeralOrNaN;
    if Truthy(p.temporal) {
      NumeralIsOrdinary(p.temporal);
    }
    JoinedNumeralsAreOrdinary(p.spatial);
  }

  /** Sides are plain or within the bound, and no caret in them escapes anything. */
  predicate Bounded(p: Part, m: nat) {
    EvenCarets(p.side) && (|p.side| <= m || PlainSide(p.side))
  }

  lemma IdIsOuter(s: Scan, p: Part, m: nat)
    requires Outer(s, m) && Bounded(p, m)
    ensures Outer(Run(s, IdText(p)), m)
  {
    hide Next, Run, Outer, Escape, Param, EvenCarets, PlainSide;
    if p.id == "" {
      RunNone(s);
    } else {
      OuterText(s, "[", m);
      RunAppend(s, "[", Escape(p.id));
      OuterEscape(Run(s, "["), p.id, m);
      RunAppend(s, "[" + Escape(p.id), Param(p) + "]");
      ParameterEnds(Run(s, "[" + Escape(p.id)), p, m);
      assert IdText(p) == "[" + Escape(p.id) + (Param(p) + "]");
    }
  }

  lemma AssertionIsOuter(s: Scan, p: Part, m: nat)
    requires Outer(s, m) && Bounded(p, m)
    ensures Outer(Run(s, AssertionText(p)), m)
  {
    hide Next, Run, Outer, EscapeAll, Join, Param, EvenCarets, PlainSide;
    if AssertionText(p) == "" {
      RunNone(s);
    } else {
      var inner := Join(EscapeAll(p.text), ",");
      OuterText(s, "[", m);
      RunAppend(s, "[", inner);
      OuterTexts(Run(s, "["), p.text, m);
      RunAppend(s, "[" + inner, Param(p) + "]");
      ParameterEnds(Run(s, "[" + inner), p, m);
      assert AssertionText(p) == "[" + inner + (Param(p) + "]");
    }
  }

  lemma PartIsOuter(s: Scan, p: Part, m: nat)
    requires Outer(s, m) && Canonical(p) && Bounded(p, m)
    ensures Outer(Run(s, PartToString(p)), m)
  {
    hide Next, Run, Outer, Bounded, Canonical, Ordinary;
    hide NumberText, IdText, OffsetText, TemporalText, SpatialText, AssertionText;
    NumbersAreOrdinary(p);
    var t1 := "/" + NumberText(p.index);
    var t2 := t1 + IdText(p);
    var t3 := t2 + OffsetText(p);
    var t4 := t3 + TemporalText(p);
    var t5 := t4 + SpatialText(p);
    RunAppend(s, t1, IdText(p));
    RunAppend(s, t2, OffsetText(p));
    RunAppend(s, t3, TemporalText(p));
    RunAppend(s, t4, SpatialText(p));
    RunAppend(s, t5, AssertionText(p));
    OuterText(s, t1, m);
    IdIsOuter(Run(s, t1), p, m);
    OuterText(Run(s, t2), OffsetText(p), m);
    OuterText(Run(s, t3), TemporalText(p), m);
    OuterText(Run(s, t4), SpatialText(p), m);
    AssertionIsOuter(Run(s, t5), p, m);
  }

  predicate BoundedPieces(xs: seq<Piece>, m: nat) {
    forall x <- xs :: x.Whole? ==> Bounded(x.part, m)
  }

  lemma {:induction false} PiecesAreOuter(s: Scan, xs: seq<Piece>, m: nat)
    requires Outer(s, m) && GoodPieces(xs) && BoundedPieces(xs, m)
    ensures Outer(Run(s, Text(xs)), m)
    decreases |xs|
  {
    hide Next, Run, Outer, GoodPieces, Bounded, PartToString, Canonical;
    if xs == [] {
      RunNone(s);
    } else {
      GoodFirst(xs);
      assert xs == [xs[0]] + xs[1..];
      RunAppend(s, PieceText(xs[0]), Text(xs[1..]));
      match xs[0] {
        case Whole(p) => PartIsOuter(s, p, m);
        case Mark(c) => OuterText(s, [c], m);
      }
      PiecesAreOuter(Run(s, PieceText(xs[0])), xs[1..], m);
    }
  }

  lemma OuterEnds(s: Scan, tail: string, m: nat)
    requires Outer(s, m) && (tail == "" || tail == ")")
    ensures Pass(Finished(s, tail), ShortTokens(m))
  {
    hide ParseFloat, ParseInt, Short, Run;
    OuterText(s, tail, m);
    OuterEnd(Run(s, tail), m);
  }

  lemma OuterEnd(s: Scan, m: nat)
    requires Outer(s, m)
    ensures Pass(Next(s, None).tokens, ShortTokens(m))
  {
    hide ParseFloat, ParseInt, Short;
  }

  // ----- The longest side that is not plain

  function SideLength(x: Piece): nat {
    if x.Whole? && !PlainSide(x.part.side) then |x.part.side| else 0
  }

  function Longest(xs: seq<Piece>): nat {
    if xs == [] then 0 else
    var rest := Longest(xs[1..]);
    if SideLength(xs[0]) > rest then SideLength(xs[0]) else rest
  }

  lemma {:induction false} LongestIsMaximal(xs: seq<Piece>)
    ensures forall x <- xs :: SideLength(x) <= Longest(xs)
    ensures xs != [] ==> exists x <- xs :: SideLength(x) == Longest(xs)
  {
    hide SideLength;
    if xs != [] {
      LongestIsMaximal(xs[1..]);
      assert xs == [xs[0]] + xs[1..];
      if xs[1..] != [] {
        var x :| x in xs[1..] && SideLength(x) == Longest(xs[1..]);
        assert x in xs;
      }
      assert xs[0] in xs;
    }
  }

  // ----- Identifiers

  lemma SidesStayShort(m: nat)
    ensures Keeps(ShortTokens(m), ShortSides(m))
  {
    hide Short;
    forall r: Reading, t: Token | Holds(r.parts, ShortSides(m)) && ShortTokens(m)(t) && Read(r, t).Success?
      ensures Holds(Read(r, t).value.parts, ShortSides(m))
    {
      ReadKeepsSides(r, t, m);
    }
  }

  lemma ReadKeepsSides(r: Reading, t: Token, m: nat)
    requires Holds(r.parts, ShortSides(m)) && ShortParameter(t, m) && Read(r, t).Success?
    ensures Holds(Read(r, t).value.parts, ShortSides(m))
  {
    hide Short;
    assert Short("", m) by {
      NoSideIsShort(m);
    }
    assert r.parts != [] ==> ShortSides(m)(r.parts[|r.parts| - 1]);
    var parts := Read(r, t).value.parts;
    forall k | 0 <= k < |parts|
      ensures ShortSides(m)(parts[k])
    {
      assert k < |r.parts| ==> ShortSides(m)(r.parts[k]);
    }
  }

  lemma NoSideIsShort(m: nat)
    ensures Short("", m)
  {
  }

  predicate PiecesHold(xs: seq<Piece>, good: PartTest) {
    forall x <- xs :: x.Whole? ==> good(x.part)
  }

  lemma {:induction false} PathsPiecesHold(paths: seq<Path>, good: PartTest)
    requires HoldsInAll(paths, good)
    ensures PiecesHold(PathsPieces(paths), good)
    decreases |paths|
  {
    if paths != [] {
      assert Holds(paths[0], good);
      assert forall k :: 0 <= k < |paths[0]| ==> good(paths[0][k]);
      if |paths| > 1 {
        assert HoldsInAll(paths[1..], good);
        PathsPiecesHold(paths[1..], good);
      }
    }
  }

  lemma CfiPiecesHold(c: Cfi, good: PartTest)
    requires HoldsIn(c, good)
    ensures PiecesHold(Pieces(c), good)
  {
    hide PathsPieces, HoldsInAll;
    match c
    case Point(paths) => PathsPiecesHold(paths, good);
    case Range(parent, start, end) =>
      PathsPiecesHold(parent, good);
      PathsPiecesHold(start, good);
      PathsPiecesHold(end, good);
  }

  /** No side that is not plain is read from the printed text, unless it is shorter than the longest one. */
  lemma PrintedParametersAreShort(c: Cfi, m: nat)
    requires CanonicalCfi(c) && BoundedPieces(Pieces(c), m)
    ensures Pass(Tokens(Unwrap(ToString(c))), ShortTokens(m))
  {
    hide Next, Run, Trim, Pieces, Text, GoodPieces, BoundedPieces, CanonicalPaths, ToInnerString, Pass, Outer, Finished;
    var inner := ToInnerString(c);
    PiecesAre(c);
    InnerText(c);
    InnerTrimmed(c);
    InnerStart(c);
    InitiallyOuter(m);
    PiecesAreOuter(INITIAL, Pieces(c), m);
    var tail := WrappedFinish(inner);
    FinishedFrom(INITIAL, inner, tail);
    OuterEnds(Run(INITIAL, inner), tail, m);
  }

  lemma InitiallyOuter(m: nat)
    ensures Outer(INITIAL, m)
  {
  }

  lemma LongestIsBound(c: Cfi)
    requires HoldsIn(c, HasEvenCarets)
    ensures BoundedPieces(Pieces(c), Longest(Pieces(c)))
  {
    hide EvenCarets, Pieces, HoldsIn, Longest, PlainSide;
    var xs := Pieces(c);
    CfiPiecesHold(c, HasEvenCarets);
    LongestIsMaximal(xs);
    forall x | x in xs && x.Whole?
      ensures Bounded(x.part, Longest(xs))
    {
      assert HasEvenCarets(x.part) && SideLength(x) <= Longest(xs);
    }
  }

  /** When no caret in a side escapes anything, the longest side that is not plain is not read from anywhere. */
  lemma LongestSideIsLost(c: Cfi)
    requires CanonicalCfi(c) && HoldsIn(c, HasEvenCarets) && !HoldsIn(c, HasPlainSide)
    ensures Parse(ToString(c)) != Success(c)
  {
    hide CanonicalCfi, HoldsIn, Parse, ToString, Keeps, Pass, Pieces, Longest, PiecesHold, PlainPieces, BoundedPieces;
    CanonicalIsNoOpenRange(c);
    var xs := Pieces(c);
    var m := Longest(xs);
    LongestIsBound(c);
    PrintedParametersAreShort(c, m);
    SidesStayShort(m);
    if Parse(ToString(c)) == Success(c) {
      ParseKeeps(ToString(c), ShortTokens(m), ShortSides(m));
      CfiPiecesHold(c, ShortSides(m));
      ShortPiecesArePlain(xs);
      CfiHasPlainSides(c);
    }
  }

  lemma CanonicalIsNoOpenRange(c: Cfi)
    requires CanonicalCfi(c)
    ensures !c.OpenRange?
  {
  }

  lemma ShortPiecesArePlain(xs: seq<Piece>)
    requires PiecesHold(xs, ShortSides(Longest(xs)))
    ensures PlainPieces(xs)
  {
    hide PlainSide, Longest;
    LongestIsMaximal(xs);
    if xs != [] {
      var x :| x in xs && SideLength(x) == Longest(xs);
      assert x.Whole? ==> ShortSides(Longest(xs))(x.part);
      NoSideLength(xs);
    }
  }

  lemma NoSideLength(xs: seq<Piece>)
    requires forall x <- xs :: SideLength(x) <= 0
    ensures PlainPieces(xs)
  {
    forall x | x in xs
      ensures PlainPiece(x)
    {
      assert SideLength(x) == 0;
    }
  }

  lemma PlainPathsAreReadable(paths: seq<Path>)
    requires CanonicalPaths(paths) && HoldsInAll(paths, HasPlainSide)
    ensures ReadablePaths(paths)
  {
    hide Canonical, PlainSide;
    forall k | 0 <= k < |paths|
      ensures ReadablePath(paths[k])
    {
      assert CanonicalPath(paths[k]) && Holds(paths[k], HasPlainSide);
      assert forall j :: 0 <= j < |paths[k]| ==> HasPlainSide(paths[k][j]);
    }
  }

  lemma PlainCfiIsReadable(c: Cfi)
    requires CanonicalCfi(c) && HoldsIn(c, HasPlainSide)
    ensures ReadableCfi(c)
  {
    hide CanonicalPaths, HoldsInAll, ReadablePaths;
    match c
    case Point(paths) => PlainPathsAreReadable(paths);
    case Range(parent, start, end) =>
      PlainPathsAreReadable(parent);
      PlainPathsAreReadable(start);
      PlainPathsAreReadable(end);
  }

  lemma PrintablePathsArePlain(paths: seq<Path>)
    requires PrintablePaths(paths)
    ensures HoldsInAll(paths, HasPlainSide)
  {
    hide PlainSide;
    forall k | 0 <= k < |paths|
      ensures Holds(paths[k], HasPlainSide)
    {
      assert PrintablePath(paths[k]);
    }
  }

  lemma PrintableCfiIsPlain(c: Cfi)
    requires CanonicalCfi(c) && PrintableCfi(c)
    ensures HoldsIn(c, HasPlainSide)
  {
    hide CanonicalPaths, HoldsInAll, PrintablePaths;
    match c
    case Point(paths) => PrintablePathsArePlain(paths);
    case Range(parent, start, end) =>
      PrintablePathsArePlain(parent);
      PrintablePathsArePlain(start);
      PrintablePathsArePlain(end);
  }

  /** Whatever is printable comes back, whatever its texts and ids. */
  lemma PrintableComesBack(c: Cfi)
    requires CanonicalCfi(c) && PrintableCfi(c)
    ensures Parse(ToString(c)) == Success(c)
  {
    hide CanonicalCfi, PrintableCfi, HoldsIn, Parse, ToString;
    PrintableCfiIsPlain(c);
    PlainCfiIsReadable(c);
    PlainRoundTripIffPrintable(c);
  }

  /** The parser undoes the printer exactly on printable identifiers, where plain sides and numbers are part of what is
      printable, and not asked for: unless a caret in a side escapes something and a side is printed twice. */
  lemma RoundTripIffPrintable(c: Cfi)
    requires CanonicalCfi(c) && (HoldsIn(c, HasEvenCarets) || SidesOnce(c))
    ensures Parse(ToString(c)) == Success(c) <==> PrintableCfi(c)
  {
    hide CanonicalPaths, SidesOnce, PrintableCfi, HoldsInAll, Parse, ToString;
    if PrintableCfi(c) {
      PrintableComesBack(c);
    } else if HoldsIn(c, HasPlainSide) {
      PlainCfiIsReadable(c);
      PlainRoundTripIffPrintable(c);
    } else if SidesOnce(c) {
      MisreadSideComesBack(c);
    } else {
      LongestSideIsLost(c);
    }
  }
}
