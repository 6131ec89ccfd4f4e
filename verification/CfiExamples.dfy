/** The syntax as the standard shows it: whole identifiers, letter by letter; and what the parser makes of other texts. */
module CfiExamples {
  import opened Wrappers
  import opened CfiSyntax
  import opened CfiPrintable
  import opened CfiScan
  import opened CfiParsed
  import opened CfiSides
  import CfiRange
  import Decimal

  function Step(n: nat, id: string): Part {
    Part(Num(n), id, None, "", [], [], "")
  }

  lemma {:induction false} NothingToEscape(s: string)
    requires forall k :: 0 <= k < |s| ==> !Special(s[k])
    ensures Escape(s) == s
  {
    if s != "" {
      NothingToEscape(s[1..]);
      assert [s[0]] + s[1..] == s;
    }
  }

  lemma StepText(n: nat, id: string)
    requires forall k :: 0 <= k < |id| ==> !Special(id[k])
    ensures PartToString(Step(n, id)) == "/" + Decimal.Text(n) + (if id == "" then "" else "[" + id + "]")
  {
    NothingToEscape(id);
  }

  lemma TwoSteps(p: Part, q: Part)
    ensures PathToString([p, q]) == PartToString(p) + PartToString(q)
  {
    hide PartToString;
    assert [p, q][1..] == [q] && [q][1..] == [];
    assert PathToString([q]) == PartToString(q) + PathToString([]) == PartToString(q);
  }

  lemma ThreeSteps(p: Part, q: Part, r: Part)
    ensures PathToString([p, q, r]) == PartToString(p) + PartToString(q) + PartToString(r)
  {
    hide PartToString;
    assert [p, q, r][1..] == [q, r];
    TwoSteps(q, r);
  }

  /** The first example of the standard: a character of a paragraph of a chapter. */
  function Paragraph(): Cfi {
    Point([[Step(6, ""), Step(4, "chap01ref")],
           [Step(4, "body01"), Step(10, "para05"), Step(3, "").(offset := Some(Num(10)))]])
  }

  lemma PackageSteps()
    ensures PathToString([Step(6, ""), Step(4, "chap01ref")]) == "/6/4[chap01ref]"
  {
    hide PathToString, PartToString;
    SmallNumbers();
    StepText(6, "");
    StepText(4, "chap01ref");
    TwoSteps(Step(6, ""), Step(4, "chap01ref"));
    assert "/6" + "/4[chap01ref]" == "/6/4[chap01ref]";
  }

  lemma ChapterTexts()
    ensures PartToString(Step(4, "body01")) == "/4[body01]" && PartToString(Step(10, "para05")) == "/10[para05]"
  {
    hide PartToString;
    SmallNumbers();
    StepText(4, "body01");
    StepText(10, "para05");
  }

  lemma ChapterSteps()
    ensures PathToString([Step(4, "body01"), Step(10, "para05"), Step(3, "").(offset := Some(Num(10)))]) == "/4[body01]/10[para05]/3:10"
  {
    hide PathToString, PartToString;
    ChapterTexts();
    OffsetStepText();
    ThreeSteps(Step(4, "body01"), Step(10, "para05"), Step(3, "").(offset := Some(Num(10))));
    assert "/4[body01]" + "/10[para05]" + "/3:10" == "/4[body01]/10[para05]/3:10";
  }

  /** It is printed as in the standard, and read back from there. */
  lemma ParagraphText()
    ensures ToString(Paragraph()) == "epubcfi(" + "/6/4[chap01ref]!/4[body01]/10[para05]/3:10" + ")"
    ensures Parse("epubcfi(" + "/6/4[chap01ref]!/4[body01]/10[para05]/3:10" + ")") == Success(Paragraph())
  {
    hide PathToString, Parse, ToInnerString, Paragraph, CanonicalCfi, PrintableCfi, IsCfi;
    ParagraphInner();
    InnerStart(Paragraph());
    ParagraphIsPrintable();
    PrintableComesBack(Paragraph());
  }

  lemma ParagraphInner()
    ensures Paragraph().Point? && ToInnerString(Paragraph()) == "/6/4[chap01ref]!/4[body01]/10[para05]/3:10"
  {
    hide PathToString;
    PackageSteps();
    ChapterSteps();
    TwoPaths([Step(6, ""), Step(4, "chap01ref")], [Step(4, "body01"), Step(10, "para05"), Step(3, "").(offset := Some(Num(10)))]);
    assert "/6/4[chap01ref]" + "!" + "/4[body01]/10[para05]/3:10" == "/6/4[chap01ref]!/4[body01]/10[para05]/3:10";
  }

  lemma ParagraphIsPrintable()
    ensures CanonicalCfi(Paragraph()) && PrintableCfi(Paragraph())
  {
    hide Canonical, Printable;
    StepIsPrintable(Step(6, ""));
    StepIsPrintable(Step(4, "chap01ref"));
    StepIsPrintable(Step(4, "body01"));
    StepIsPrintable(Step(10, "para05"));
    StepIsPrintable(Step(3, "").(offset := Some(Num(10))));
    var paths := Paragraph().paths;
    assert |paths| == 2 && |paths[0]| == 2 && |paths[1]| == 3;
  }

  lemma StepIsPrintable(p: Part)
    requires p.temporal == "" && p.spatial == [] && p.text == [] && p.side == "" && (p.offset.Some? ==> Odd(p.index))
    ensures Canonical(p) && Printable(p)
  {
  }

  lemma SmallNumbers()
    ensures Decimal.Text(3) == "3" && Decimal.Text(4) == "4" && Decimal.Text(6) == "6" && Decimal.Text(10) == "10"
  {
  }

  lemma OffsetStepText()
    ensures PartToString(Step(3, "").(offset := Some(Num(10)))) == "/3:10"
  {
    SmallNumbers();
  }

  lemma TwoPaths(p: Path, q: Path)
    ensures PathsToString([p, q]) == PathToString(p) + "!" + PathToString(q)
  {
    hide PathToString;
    assert [p, q][1..] == [q];
  }

  // ----- A range

  function At(n: nat, offset: nat): Part {
    Step(n, "").(offset := Some(Num(offset)))
  }

  function ToParagraph(): Path {
    [Step(4, ""), Step(10, "")]
  }

  /** A range of one chapter, from within a child of the paragraph to a text of it. */
  function Excerpt(): Cfi {
    Range([[Step(6, ""), Step(4, "")], ToParagraph()], [[Step(2, ""), At(1, 1)]], [[At(3, 4)]])
  }

  lemma ParentSteps()
    ensures PathToString([Step(6, ""), Step(4, "")]) == "/6/4" && PathToString(ToParagraph()) == "/4/10"
  {
    hide PathToString, PartToString;
    SmallNumbers();
    StepText(4, "");
    StepText(6, "");
    StepText(10, "");
    TwoSteps(Step(6, ""), Step(4, ""));
    TwoSteps(Step(4, ""), Step(10, ""));
    assert "/6" + "/4" == "/6/4" && "/4" + "/10" == "/4/10";
  }

  lemma AtText()
    ensures PartToString(At(1, 1)) == "/1:1" && PartToString(At(3, 4)) == "/3:4" && PartToString(Step(2, "")) == "/2"
  {
    assert Decimal.Text(1) == "1" && Decimal.Text(2) == "2" && Decimal.Text(3) == "3" && Decimal.Text(4) == "4";
    StepText(2, "");
  }

  lemma EndSteps()
    ensures PathsToString([[Step(2, ""), At(1, 1)]]) == "/2/1:1" && PathsToString([[At(3, 4)]]) == "/3:4"
  {
    hide PathToString, PartToString;
    AtText();
    TwoSteps(Step(2, ""), At(1, 1));
    OneStep(At(3, 4));
    assert "/2" + "/1:1" == "/2/1:1";
  }

  lemma OneStep(p: Part)
    ensures PathToString([p]) == PartToString(p)
  {
    hide PartToString;
  }

  lemma ExcerptInner()
    ensures Excerpt().Range? && ToInnerString(Excerpt()) == "/6/4!/4/10,/2/1:1,/3:4"
  {
    hide PathToString, PathsToString;
    ParentSteps();
    EndSteps();
    TwoPaths([Step(6, ""), Step(4, "")], ToParagraph());
    assert "/6/4" + "!" + "/4/10" == "/6/4!/4/10";
    assert "/6/4!/4/10" + "," + "/2/1:1" + "," + "/3:4" == "/6/4!/4/10,/2/1:1,/3:4";
  }

  lemma ExcerptIsPrintable()
    ensures CanonicalCfi(Excerpt()) && PrintableCfi(Excerpt())
  {
    hide Canonical, Printable;
    StepIsPrintable(Step(6, ""));
    StepIsPrintable(Step(4, ""));
    StepIsPrintable(Step(10, ""));
    StepIsPrintable(Step(2, ""));
    StepIsPrintable(At(1, 1));
    StepIsPrintable(At(3, 4));
  }

  /** What the ends share goes first, then the start, and then the end. */
  lemma ExcerptText()
    ensures ToString(Excerpt()) == "epubcfi(" + "/6/4!/4/10,/2/1:1,/3:4" + ")"
    ensures Parse("epubcfi(" + "/6/4!/4/10,/2/1:1,/3:4" + ")") == Success(Excerpt())
  {
    hide PathToString, Parse, ToInnerString, Excerpt, CanonicalCfi, PrintableCfi, IsCfi;
    ExcerptInner();
    InnerStart(Excerpt());
    ExcerptIsPrintable();
    PrintableComesBack(Excerpt());
  }

  lemma ExcerptEnds()
    ensures CfiRange.Collapse(Excerpt(), false) == [[Step(6, ""), Step(4, "")], ToParagraph() + [Step(2, ""), At(1, 1)]]
    ensures CfiRange.Collapse(Excerpt(), true) == [[Step(6, ""), Step(4, "")], ToParagraph() + [At(3, 4)]]
  {
  }

  lemma ExcerptIsBuilt()
    ensures var chapter := [Step(6, ""), Step(4, "")];
            var p, q := ToParagraph() + [Step(2, ""), At(1, 1)], ToParagraph() + [At(3, 4)];
            CfiRange.RangeOf([chapter, p], [chapter, q]) == Excerpt()
  {
    var p, q := ToParagraph() + [Step(2, ""), At(1, 1)], ToParagraph() + [At(3, 4)];
    assert p[1..][1..] == [Step(2, ""), At(1, 1)] && q[1..][1..] == [At(3, 4)];
    assert CfiRange.SharedLength(p[1..][1..], q[1..][1..]) == 0;
    assert CfiRange.SharedLength(p[1..], q[1..]) == 1;
    assert CfiRange.SharedLength(p, q) == 2;
    assert p[..2] == ToParagraph() && p[2..] == [Step(2, ""), At(1, 1)] && q[2..] == [At(3, 4)];
  }

  // ----- Every kind of field

  /** A step with all that can follow it. */
  const EVERYTHING := Part(Num(3), "id", Some(Num(4)), "23.5", ["5.75", "97.6"], ["xx,", "y[z]"], "b")

  lemma EverythingText()
    ensures PartToString(EVERYTHING) == "/3[id;s=b]:4~23.5@5.75:97.6[xx^,,y^[z^];s=b]"
  {
    hide IdText, OffsetText, TemporalText, SpatialText, AssertionText, NumberText;
    EverythingPieces();
    assert "/" + "3" + "[id;s=b]" + ":4" == "/3[id;s=b]:4";
    assert "/3[id;s=b]:4" + "~23.5" + "@5.75:97.6" == "/3[id;s=b]:4~23.5@5.75:97.6";
    assert "/3[id;s=b]:4~23.5@5.75:97.6" + "[xx^,,y^[z^];s=b]" == "/3[id;s=b]:4~23.5@5.75:97.6[xx^,,y^[z^];s=b]";
  }

  lemma EverythingComesBack()
    ensures Parse(ToString(Point([[EVERYTHING]]))) == Success(Point([[EVERYTHING]]))
  {
    hide Parse, Numeral, AfterNaN;
    EverythingIsPrintable();
    PrintableComesBack(Point([[EVERYTHING]]));
  }

  lemma EverythingIsPrintable()
    ensures Canonical(EVERYTHING) && Printable(EVERYTHING)
  {
    hide Numeral, UpToNaN;
    StrippedIsNumeral("23", "5");
    StrippedIsNumeral("5", "75");
    StrippedIsNumeral("97", "6");
    assert "23" + Decimals("5") == "23.5" && "5" + Decimals("75") == "5.75" && "97" + Decimals("6") == "97.6";
    assert forall t <- EVERYTHING.spatial :: NumeralOrNaN(t);
    NoNaN();
  }

  lemma NoNaN()
    ensures UpToNaN(["5.75", "97.6"]) == ["5.75", "97.6"]
  {
    assert ["5.75", "97.6"][1..] == ["97.6"] && ["97.6"][1..] == [];
  }

  lemma EverythingPieces()
    ensures NumberText(EVERYTHING.index) == "3" && IdText(EVERYTHING) == "[id;s=b]" && OffsetText(EVERYTHING) == ":4"
    ensures TemporalText(EVERYTHING) == "~23.5" && SpatialText(EVERYTHING) == "@5.75:97.6"
    ensures AssertionText(EVERYTHING) == "[xx^,,y^[z^];s=b]"
  {
    hide Decimal.Text, Escape, EscapeAll, Join;
    SmallNumbers();
    NothingToEscape("id");
    TwoNumbers();
    EscapedTexts();
  }

  lemma TwoNumbers()
    ensures Join(["5.75", "97.6"], ":") == "5.75:97.6"
  {
    assert ["5.75", "97.6"][1..] == ["97.6"];
  }

  lemma EscapedTexts()
    ensures Join(EscapeAll(EVERYTHING.text), ",") == "xx^,,y^[z^]"
  {
    assert Escape("xx,") == "xx^,";
    assert Escape("y[z]") == "y^[z^]";
    assert EscapeAll(["xx,", "y[z]"]) == ["xx^,", "y^[z^]"];
    assert ["xx^,", "y^[z^]"][1..] == ["y^[z^]"];
  }

  // ----- What the parser makes of other texts

  /** A token that sets a field of the last part. */
  predicate SetsField(t: Token) {
    !t.Step? && !t.Indirection? && !t.Comma? && (t.Parameter? ==> t.name == "s")
  }

  lemma {:induction false} ReadThrowsIff(r: Reading, tokens: seq<Token>)
    ensures ReadAll(r, tokens).Thrown? <==>
            r.parts == [] && exists k :: 0 <= k < |tokens| && SetsField(tokens[k]) && forall j :: 0 <= j < k ==> !tokens[j].Step?
    decreases tokens
  {
    if tokens != [] {
      var t, rest := tokens[0], tokens[1..];
      if r.parts == [] && SetsField(t) {
        assert SetsField(tokens[0]);
      } else {
        var next := Read(r, t).value;
        ReadThrowsIff(next, rest);
        PartsRemain(r, t);
        FieldLater(tokens);
      }
    }
  }

  lemma PartsRemain(r: Reading, t: Token)
    requires Read(r, t).Success?
    ensures Read(r, t).value.parts == [] <==> r.parts == [] && !t.Step?
  {
  }

  lemma FieldLater(tokens: seq<Token>)
    requires tokens != []
    ensures (exists k :: 0 <= k < |tokens| && SetsField(tokens[k]) && forall j :: 0 <= j < k ==> !tokens[j].Step?) <==>
            SetsField(tokens[0]) ||
            (!tokens[0].Step? && exists k :: 0 <= k < |tokens[1..]| && SetsField(tokens[1..][k]) && forall j :: 0 <= j < k ==> !tokens[1..][j].Step?)
  {
    var rest := tokens[1..];
    forall k | 0 <= k < |tokens| && SetsField(tokens[k]) && (forall j :: 0 <= j < k ==> !tokens[j].Step?) && k > 0
      ensures SetsField(rest[k - 1]) && forall j :: 0 <= j < k - 1 ==> !rest[j].Step?
    {
      assert rest[k - 1] == tokens[k];
      assert forall j :: 0 <= j < k - 1 ==> rest[j] == tokens[j + 1];
    }
    forall k | 0 <= k < |rest| && SetsField(rest[k]) && (forall j :: 0 <= j < k ==> !rest[j].Step?) && !tokens[0].Step?
      ensures SetsField(tokens[k + 1]) && forall j :: 0 <= j < k + 1 ==> !tokens[j].Step?
    {
      assert tokens[k + 1] == rest[k];
      assert forall j :: 0 < j < k + 1 ==> tokens[j] == rest[j - 1];
    }
  }

  /** The parser throws if and only if some field comes before any step. */
  lemma ParserThrowsIff(tokens: seq<Token>)
    ensures ParsePath(tokens).Thrown? <==>
            exists k :: 0 <= k < |tokens| && SetsField(tokens[k]) && forall j :: 0 <= j < k ==> !tokens[j].Step?
  {
    ReadThrowsIff(Reading([], false), tokens);
  }

  /** A parameter other than the side is read, and changes no part. */
  lemma OtherParametersAreIgnored(r: Reading, name: string, value: string)
    requires name != "s"
    ensures Read(r, Parameter(name, value)).Success? && Read(r, Parameter(name, value)).value.parts == r.parts
  {
  }

  lemma {:induction false} SpacesAreTrimmed(before: string, s: string, after: string)
    requires (forall k :: 0 <= k < |before| ==> IsSpace(before[k])) && forall k :: 0 <= k < |after| ==> IsSpace(after[k])
    requires s != "" ==> !IsSpace(s[0]) && !IsSpace(s[|s| - 1])
    ensures Trim(before + s + after) == s
    decreases |before| + |after|
  {
    hide IsSpace;
    var all := before + s + after;
    if before != "" {
      assert all[1..] == before[1..] + s + after && all[0] == before[0];
      SpacesAreTrimmed(before[1..], s, after);
    } else if after != "" {
      var fewer := after[..|after| - 1];
      assert all == s + after;
      if s == "" {
        assert all[1..] == "" + s + after[1..] && all[0] == after[0];
        SpacesAreTrimmed("", s, after[1..]);
      } else {
        assert all[..|all| - 1] == "" + s + fewer && all[|all| - 1] == after[|after| - 1] && all[0] == s[0];
        SpacesAreTrimmed("", s, fewer);
      }
    } else {
      assert all == s;
    }
  }

  /** White space around an identifier without its wrapper means nothing. */
  lemma SpacesMeanNothing(before: string, s: string, after: string)
    requires (forall k :: 0 <= k < |before| ==> IsSpace(before[k])) && forall k :: 0 <= k < |after| ==> IsSpace(after[k])
    requires s != "" ==> !IsSpace(s[0]) && !IsSpace(s[|s| - 1])
    ensures Tokens(before + s + after) == Tokens(s)
  {
    hide IsSpace, Trim, Run, Next;
    SpacesAreTrimmed(before, s, after);
    SpacesAreTrimmed("", s, "");
    assert "" + s + "" == s;
  }
}
