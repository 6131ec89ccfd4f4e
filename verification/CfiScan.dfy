/** Tokenizing printed text gives the tokens of the identifier that was printed. */
module CfiScan {
  import opened Wrappers
  import opened CfiSyntax
  import opened CfiPrintable
  import Decimal

  // ----- Scanning the printed text

  /** Between two pieces of printed text: outside brackets, perhaps with a number still being collected. */
  predicate Settled(s: Scan) {
    !s.escape && !s.state.InBracket? && !s.state.InParameter? && (s.state.Idle? ==> s.value == "")
  }

  /** The tokens once the number being collected is pushed. */
  function Settle(s: Scan): seq<Token> {
    match s.state
    case InIndirection => s.tokens + [Indirection]
    case InComma => s.tokens + [Comma]
    case InStep => s.tokens + [Step(ParseInt(s.value))]
    case InOffset => s.tokens + [Offset(ParseInt(s.value))]
    case InTemporal => s.tokens + [Temporal(ParseFloat(s.value))]
    case InSpatial => s.tokens + [Spatial(ParseFloat(s.value))]
    case _ => s.tokens
  }

  lemma Delimit(s: Scan, c: char)
    requires Settled(s) && IsDelimiter(c) && !(s.state.InSpatial? && c == ':')
    ensures Next(s, Some(c)) == Scan(Settle(s), DelimiterState(c), false, "")
  {
  }

  lemma RunNone(s: Scan)
    ensures Run(s, "") == s
  {
  }

  lemma RunOne(s: Scan, c: char)
    ensures Run(s, [c]) == Next(s, Some(c))
  {
  }

  lemma RunTwo(s: Scan, c: char, d: char)
    ensures Run(s, [c, d]) == Next(Next(s, Some(c)), Some(d))
  {
    hide Next;
    RunOne(s, c);
    RunOne(Next(s, Some(c)), d);
    RunAppend(s, [c], [d]);
    assert [c] + [d] == [c, d];
  }

  lemma {:induction false} DigitsScan(s: Scan, digits: string)
    requires (s.state.InStep? || s.state.InOffset?) && !s.escape && Decimal.AllDigits(digits)
    ensures Run(s, digits) == s.(value := s.value + digits)
    decreases digits
  {
    if digits == "" {
      assert s.value + digits == s.value;
    } else {
      DigitsScan(Next(s, Some(digits[0])), digits[1..]);
      assert s.value + [digits[0]] + digits[1..] == s.value + digits;
    }
  }

  lemma {:induction false} FloatScan(s: Scan, t: string)
    requires (s.state.InTemporal? || s.state.InSpatial?) && !s.escape
    requires forall k :: 0 <= k < |t| ==> IsFloatChar(t[k])
    ensures Run(s, t) == s.(value := s.value + t)
    decreases t
  {
    if t == "" {
      assert s.value + t == s.value;
    } else {
      FloatScan(Next(s, Some(t[0])), t[1..]);
      assert s.value + [t[0]] + t[1..] == s.value + t;
    }
  }

  lemma {:induction false} EscapeScan(s: Scan, text: string)
    requires (s.state.InBracket? || s.state.InParameter?) && !s.escape
    ensures Run(s, Escape(text)) == s.(value := s.value + text)
    decreases text
  {
    if text == "" {
      assert s.value + text == s.value;
    } else {
      var c := text[0];
      var s' := s.(value := s.value + [c]);
      RunAppend(s, EscapeChar(c), Escape(text[1..]));
      RunOne(s, c);
      RunTwo(s, '^', c);
      assert Run(s, EscapeChar(c)) == s';
      EscapeScan(s', text[1..]);
      assert s.value + [c] + text[1..] == s.value + text;
    }
  }

  lemma {:induction false} SideScan(s: Scan, side: string)
    requires s.state.InParameter? && !s.escape && PlainSide(side)
    ensures Run(s, side) == s.(value := s.value + side)
    decreases side
  {
    if side == "" {
      assert s.value + side == s.value;
    } else {
      SideScan(Next(s, Some(side[0])), side[1..]);
      assert s.value + [side[0]] + side[1..] == s.value + side;
    }
  }

  /** Outside brackets, whatever is neither a delimiter nor an escape is skipped. */
  lemma {:induction false} JunkScan(s: Scan, junk: string)
    requires s.state.Idle?
    requires forall k :: 0 <= k < |junk| ==> !IsDelimiter(junk[k]) && junk[k] != '^'
    ensures Run(s, junk) == s
    decreases junk
  {
    if junk != "" {
      JunkScan(s, junk[1..]);
    }
  }

  lemma NaNScan(s: Scan)
    requires s.state.InStep? || s.state.InOffset?
    requires !s.escape && s.value == ""
    ensures Run(s, "NaN") == Scan(s.tokens + [if s.state.InStep? then Step(NaN) else Offset(NaN)], Idle, false, "")
  {
  }

  lemma NumberScan(s: Scan, x: Number)
    requires s.state.InStep? || s.state.InOffset?
    requires !s.escape && s.value == ""
    ensures var r := Run(s, NumberText(x)); Settled(r) && !r.state.InSpatial?
    ensures Settle(Run(s, NumberText(x))) == s.tokens + [if s.state.InStep? then Step(x) else Offset(x)]
  {
    hide Next, Run, Decimal.Text, Decimal.Value;
    match x
    case NaN => NaNScan(s);
    case Num(n) =>
      DigitsScan(s, Decimal.Text(n));
      Decimal.ValueOfText(n);
      assert "" + Decimal.Text(n) == Decimal.Text(n);
  }

  /** The end of a bracket: its parameter, if any, and the closing bracket. */
  lemma CloseScan(s: Scan, p: Part)
    requires s.state.InBracket? && !s.escape && PlainSide(p.side)
    ensures Run(s, Param(p) + "]") == Scan(s.tokens + [Bracket(s.value)] + ParamTokens(p), Idle, false, "")
  {
    hide Run;
    if p.side == "" {
      assert Param(p) + "]" == "]";
      RunOne(s, ']');
    } else {
      var s1 := Scan(s.tokens + [Bracket(s.value)], InParameter("s"), false, "");
      var s2 := s1.(value := p.side);
      RunTwo(s, ';', 's');
      RunOne(s1.(state := InParameter(""), value := "s"), '=');
      RunAppend(s, ";s", "=");
      assert "" + ['s'] == "s" && ";s" + "=" == ";s=";
      assert Run(s, ";s=") == s1;
      RunAppend(s, ";s=", p.side);
      SideScan(s1, p.side);
      assert "" + p.side == p.side;
      RunAppend(s, ";s=" + p.side, "]");
      RunOne(s2, ']');
    }
  }

  lemma IdScan(s: Scan, p: Part)
    requires Settled(s) && !s.state.InSpatial? && Readable(p)
    ensures var r := Run(s, IdText(p)); Settled(r) && !r.state.InSpatial?
    ensures Settle(Run(s, IdText(p))) == Settle(s) + IdTokens(p)
  {
    hide Next, Escape, Param;
    if p.id != "" {
      Delimit(s, '[');
      RunOne(s, '[');
      var s1 := Scan(Settle(s), InBracket, false, "");
      RunAppend(s, "[", Escape(p.id));
      EscapeScan(s1, p.id);
      assert "" + p.id == p.id;
      RunAppend(s, "[" + Escape(p.id), Param(p) + "]");
      CloseScan(s1.(value := p.id), p);
      assert IdText(p) == "[" + Escape(p.id) + (Param(p) + "]");
    }
  }

  lemma OffsetScan(s: Scan, p: Part)
    requires Settled(s) && !s.state.InSpatial?
    ensures var r := Run(s, OffsetText(p)); Settled(r) && !r.state.InSpatial?
    ensures Settle(Run(s, OffsetText(p))) == Settle(s) + OffsetTokens(p)
  {
    hide Next;
    if OffsetText(p) != "" {
      Delimit(s, ':');
      RunOne(s, ':');
      RunAppend(s, ":", NumberText(p.offset.value));
      NumberScan(Scan(Settle(s), InOffset, false, ""), p.offset.value);
    }
  }

  lemma TemporalScan(s: Scan, p: Part)
    requires Settled(s) && !s.state.InSpatial? && Canonical(p)
    ensures var r := Run(s, TemporalText(p)); Settled(r) && !r.state.InSpatial?
    ensures Settle(Run(s, TemporalText(p))) == Settle(s) + TemporalTokens(p)
  {
    hide Next, Run, ParseFloat, Join;
    RunNone(s);
    if Truthy(p.temporal) {
      Delimit(s, '~');
      RunOne(s, '~');
      RunAppend(s, "~", p.temporal);
      FloatScan(Scan(Settle(s), InTemporal, false, ""), p.temporal);
      assert "" + p.temporal == p.temporal;
    }
  }

  lemma SpatialColon(s: Scan)
    requires s.state.InSpatial? && !s.escape
    ensures Next(s, Some(':')) == Scan(s.tokens + [Spatial(ParseFloat(s.value))], InSpatial, false, "")
  {
  }

  /** One spatial offset and the colon after it. */
  lemma SpatialHead(s: Scan, t: string, more: string)
    requires s.state.InSpatial? && !s.escape && s.value == "" && Numeral(t)
    ensures Run(s, t + ":" + more) == Run(Scan(s.tokens + [Spatial(t)], InSpatial, false, ""), more)
  {
    hide Next, Run, ParseFloat;
    assert ParseFloat(t) == t && forall k :: 0 <= k < |t| ==> IsFloatChar(t[k]);
    FloatScan(s, t);
    assert "" + t == t;
    RunAppend(s, t, ":");
    RunOne(s.(value := t), ':');
    SpatialColon(s.(value := t));
    RunAppend(s, t + ":", more);
  }

  lemma SpatialLast(s: Scan, t: string)
    requires s.state.InSpatial? && !s.escape && s.value == "" && Numeral(t)
    ensures Settled(Run(s, t)) && Settle(Run(s, t)) == s.tokens + [Spatial(t)]
  {
    hide Next, Run, ParseFloat;
    assert ParseFloat(t) == t && forall k :: 0 <= k < |t| ==> IsFloatChar(t[k]);
    FloatScan(s, t);
    assert "" + t == t;
  }

  /** An offset that is not a number ends the spatial offsets. */
  lemma SpatialNaN(s: Scan)
    requires s.state.InSpatial? && !s.escape && s.value == ""
    ensures Run(s, "NaN") == Scan(s.tokens + [Spatial("NaN")], Idle, false, "")
  {
    hide Run;
    RunAppend(s, "N", "aN");
    RunOne(s, 'N');
    assert "N" + "aN" == "NaN";
    JunkScan(Scan(s.tokens + [Spatial("NaN")], Idle, false, ""), "aN");
  }

  lemma NumeralOffsetScan(s: Scan, t: string)
    requires s.state.InOffset? && !s.escape && s.value == "" && NumeralOrNaN(t)
    ensures var r := Run(s, t); Settled(r) && !r.state.InSpatial?
    ensures Settle(Run(s, t)) == s.tokens + [Offset(OffsetRead(t))]
  {
    hide Run, ParseFloat, ParseInt, LeadingDigits, Numeral;
    var d := LeadingDigits(t);
    assert t == d + t[|d|..] && "" + d == d;
    RunAppend(s, d, t[|d|..]);
    DigitsScan(s, d);
    if |d| < |t| {
      AfterDigits(t);
      var r := Scan(s.tokens + [Offset(ParseInt(d))], Idle, false, "");
      assert t[|d|..] == [t[|d|]] + t[|d| + 1..];
      RunAppend(s.(value := d), [t[|d|]], t[|d| + 1..]);
      RunOne(s.(value := d), t[|d|]);
      JunkScan(r, t[|d| + 1..]);
    } else {
      assert t[|d|..] == "";
      RunNone(s.(value := d));
    }
  }

  lemma {:induction false} DigitsEnd(t: string)
    ensures var d := LeadingDigits(t); |d| < |t| ==> !Decimal.IsDigit(t[|d|])
  {
    if t != "" && Decimal.IsDigit(t[0]) {
      DigitsEnd(t[1..]);
    }
  }

  /** What follows the leading digits of a number is neither a delimiter nor an escape. */
  lemma AfterDigits(t: string)
    requires NumeralOrNaN(t) && |LeadingDigits(t)| < |t|
    ensures !Decimal.IsDigit(t[|LeadingDigits(t)|])
    ensures forall k :: 0 <= k < |t| ==> !IsDelimiter(t[k]) && t[k] != '^'
  {
    hide LeadingDigits, ParseFloat;
    DigitsEnd(t);
  }

  lemma {:induction false} OffsetsScan(s: Scan, ts: seq<string>)
    requires Settled(s) && !s.state.InSpatial? && ts != []
    requires forall k :: 0 <= k < |ts| ==> NumeralOrNaN(ts[k])
    ensures var r := Run(s, ":" + Join(ts, ":")); Settled(r) && !r.state.InSpatial?
    ensures Settle(Run(s, ":" + Join(ts, ":"))) == Settle(s) + Offsets(ts)
    decreases |ts|
  {
    hide Next, Run, Settled, Settle, NumeralOrNaN, OffsetRead, Join, Offsets;
    assert NumeralOrNaN(ts[0]);
    OneOffsetScan(s, ts[0]);
    OffsetsFirst(ts);
    JoinFirst(ts);
    if |ts| > 1 {
      Regroup(":", ts[0], ":" + Join(ts[1..], ":"));
      RunAppend(s, ":" + ts[0], ":" + Join(ts[1..], ":"));
      OffsetsScan(Run(s, ":" + ts[0]), ts[1..]);
      assert Settle(s) + [Offset(OffsetRead(ts[0]))] + Offsets(ts[1..]) == Settle(s) + Offsets(ts);
    }
  }

  lemma OneOffsetScan(s: Scan, t: string)
    requires Settled(s) && !s.state.InSpatial? && NumeralOrNaN(t)
    ensures var r := Run(s, ":" + t); Settled(r) && !r.state.InSpatial?
    ensures Settle(Run(s, ":" + t)) == Settle(s) + [Offset(OffsetRead(t))]
  {
    hide Next, Run, NumeralOrNaN, OffsetRead;
    Delimit(s, ':');
    RunOne(s, ':');
    RunAppend(s, ":", t);
    NumeralOffsetScan(Scan(Settle(s), InOffset, false, ""), t);
  }

  lemma OffsetsFirst(ts: seq<string>)
    requires ts != []
    ensures Offsets(ts) == [Offset(OffsetRead(ts[0]))] + Offsets(ts[1..])
    ensures |ts| == 1 ==> Offsets(ts) == [Offset(OffsetRead(ts[0]))]
  {
    hide OffsetRead;
  }

  lemma JoinFirst(ts: seq<string>)
    requires ts != []
    ensures Join(ts, ":") == if |ts| == 1 then ts[0] else ts[0] + (":" + Join(ts[1..], ":"))
  {
  }

  lemma Regroup(a: string, b: string, c: string)
    ensures a + (b + c) == a + b + c
  {
  }

  /** The spatial offsets after the at sign, separated by colons. */
  lemma {:induction false} SpatialsScan(s: Scan, ts: seq<string>)
    requires s.state.InSpatial? && !s.escape && s.value == "" && ts != []
    requires forall k :: 0 <= k < |ts| ==> NumeralOrNaN(ts[k])
    ensures Settled(Run(s, Join(ts, ":")))
    ensures Settle(Run(s, Join(ts, ":"))) == s.tokens + SpatialTokens(ts)
    decreases |ts|
  {
    hide Next, Run, ParseFloat, Numeral, Settle, Settled, SpatialTokens;
    assert NumeralOrNaN(ts[0]);
    SpatialTokensFirst(ts);
    if ts[0] == "NaN" {
      NaNFirst(s, ts);
    } else if |ts| > 1 {
      SpatialHead(s, ts[0], Join(ts[1..], ":"));
      SpatialsScan(Scan(s.tokens + [Spatial(ts[0])], InSpatial, false, ""), ts[1..]);
      assert s.tokens + [Spatial(ts[0])] + SpatialTokens(ts[1..]) == s.tokens + SpatialTokens(ts);
    } else {
      SpatialLast(s, ts[0]);
    }
  }

  lemma SpatialTokensFirst(ts: seq<string>)
    requires ts != []
    ensures ts[0] == "NaN" ==> SpatialTokens(ts) == [Spatial("NaN")] + Offsets(ts[1..])
    ensures ts[0] != "NaN" && |ts| > 1 ==> SpatialTokens(ts) == [Spatial(ts[0])] + SpatialTokens(ts[1..])
    ensures ts[0] != "NaN" && |ts| == 1 ==> SpatialTokens(ts) == [Spatial(ts[0])]
  {
    if ts[0] == "NaN" {
      assert Spatials([ts[0]]) == [Spatial("NaN")];
    } else {
      var first := UpToNaN(ts[1..]);
      assert UpToNaN(ts)[1..] == first && AfterNaN(ts) == AfterNaN(ts[1..]);
    }
  }

  lemma NaNFirst(s: Scan, ts: seq<string>)
    requires s.state.InSpatial? && !s.escape && s.value == "" && ts != [] && ts[0] == "NaN"
    requires forall k :: 0 <= k < |ts| ==> NumeralOrNaN(ts[k])
    ensures Settled(Run(s, Join(ts, ":")))
    ensures Settle(Run(s, Join(ts, ":"))) == s.tokens + ([Spatial("NaN")] + Offsets(ts[1..]))
  {
    hide Next, Run, NumeralOrNaN, OffsetRead, Join, Offsets;
    SpatialNaN(s);
    JoinFirst(ts);
    var now := s.tokens + [Spatial("NaN")];
    if |ts| > 1 {
      RunAppend(s, "NaN", ":" + Join(ts[1..], ":"));
      OffsetsScan(Run(s, "NaN"), ts[1..]);
      assert now + Offsets(ts[1..]) == s.tokens + ([Spatial("NaN")] + Offsets(ts[1..]));
    } else {
      NoOffsets();
      assert ts[1..] == [] && now == s.tokens + ([Spatial("NaN")] + []);
    }
  }

  lemma NoOffsets()
    ensures Offsets([]) == []
  {
  }

  lemma SpatialScan(s: Scan, p: Part)
    requires Settled(s) && Canonical(p)
    ensures Settled(Run(s, SpatialText(p)))
    ensures Settle(Run(s, SpatialText(p))) == Settle(s) + SpatialTokens(p.spatial)
  {
    hide Next, Run, ParseFloat, Join, NumeralOrNaN;
    RunNone(s);
    if p.spatial != [] {
      Delimit(s, '@');
      RunOne(s, '@');
      RunAppend(s, "@", Join(p.spatial, ":"));
      SpatialsScan(Scan(Settle(s), InSpatial, false, ""), p.spatial);
    }
  }

  lemma BracketComma(s: Scan)
    requires s.state.InBracket? && !s.escape
    ensures Next(s, Some(',')) == Scan(s.tokens + [Bracket(s.value)], InBracket, false, "")
  {
  }

  lemma EscapeAllCons(ts: seq<string>)
    requires ts != []
    ensures EscapeAll(ts)[0] == Escape(ts[0]) && EscapeAll(ts)[1..] == EscapeAll(ts[1..])
  {
  }

  lemma {:induction false} BracketsScan(s: Scan, ts: seq<string>)
    requires s.state.InBracket? && !s.escape && s.value == "" && ts != []
    ensures var r := Run(s, Join(EscapeAll(ts), ","));
            r.state.InBracket? && !r.escape && r.tokens + [Bracket(r.value)] == s.tokens + Brackets(ts)
    decreases |ts|
  {
    hide Next, Run, Escape, EscapeAll, Join, Brackets;
    EscapeAllCons(ts);
    EscapeScan(s, ts[0]);
    BracketsFirst(ts);
    assert "" + ts[0] == ts[0];
    if |ts| > 1 {
      var s1 := Scan(s.tokens + [Bracket(ts[0])], InBracket, false, "");
      RunAppend(s, Escape(ts[0]), ",");
      RunOne(s.(value := ts[0]), ',');
      BracketComma(s.(value := ts[0]));
      RunAppend(s, Escape(ts[0]) + ",", Join(EscapeAll(ts[1..]), ","));
      BracketsScan(s1, ts[1..]);
    }
  }

  lemma BracketsFirst(ts: seq<string>)
    requires ts != []
    ensures Brackets(ts) == [Bracket(ts[0])] + Brackets(ts[1..])
    ensures |ts| > 1 ==> Join(EscapeAll(ts), ",") == Escape(ts[0]) + "," + Join(EscapeAll(ts[1..]), ",")
    ensures |ts| == 1 ==> Join(EscapeAll(ts), ",") == Escape(ts[0]) && Brackets(ts) == [Bracket(ts[0])]
  {
    hide Escape;
    EscapeAllCons(ts);
  }

  lemma AssertionScan(s: Scan, p: Part)
    requires Settled(s) && Readable(p)
    ensures Settled(Run(s, AssertionText(p)))
    ensures Settle(Run(s, AssertionText(p))) == Settle(s) + AssertionTokens(p)
  {
    hide Next;
    var shown := Shown(p);
    if shown != [] {
      var inner := Join(EscapeAll(shown), ",");
      assert inner == Join(EscapeAll(p.text), ",") by {
        if p.text == [] {
          assert EscapeAll(shown)[0] == "";
        }
      }
      Delimit(s, '[');
      RunOne(s, '[');
      var s1 := Scan(Settle(s), InBracket, false, "");
      RunAppend(s, "[", inner);
      BracketsScan(s1, shown);
      var s2 := Run(s1, inner);
      RunAppend(s, "[" + inner, Param(p) + "]");
      CloseScan(s2, p);
      assert AssertionText(p) == "[" + inner + (Param(p) + "]");
    }
  }

  lemma StepScan(s: Scan, p: Part)
    requires Settled(s)
    ensures var r := Run(s, "/" + NumberText(p.index)); Settled(r) && !r.state.InSpatial?
    ensures Settle(Run(s, "/" + NumberText(p.index))) == Settle(s) + [Step(p.index)]
  {
    hide Next;
    Delimit(s, '/');
    RunOne(s, '/');
    RunAppend(s, "/", NumberText(p.index));
    NumberScan(Scan(Settle(s), InStep, false, ""), p.index);
  }

  lemma PartScan(s: Scan, p: Part)
    requires Settled(s) && Readable(p)
    ensures Settled(Run(s, PartToString(p)))
    ensures Settle(Run(s, PartToString(p))) == Settle(s) + PartTokens(p)
  {
    hide Next, Run, Settled, Settle, Canonical, PlainSide;
    hide IdText, OffsetText, TemporalText, SpatialText, AssertionText;
    hide IdTokens, OffsetTokens, TemporalTokens, SpatialTokens, AssertionTokens;
    StepScan(s, p);
    var t1 := "/" + NumberText(p.index);
    RunAppend(s, t1, IdText(p));
    IdScan(Run(s, t1), p);
    var t2 := t1 + IdText(p);
    RunAppend(s, t2, OffsetText(p));
    OffsetScan(Run(s, t2), p);
    var t3 := t2 + OffsetText(p);
    RunAppend(s, t3, TemporalText(p));
    TemporalScan(Run(s, t3), p);
    var t4 := t3 + TemporalText(p);
    RunAppend(s, t4, SpatialText(p));
    SpatialScan(Run(s, t4), p);
    var t5 := t4 + SpatialText(p);
    RunAppend(s, t5, AssertionText(p));
    AssertionScan(Run(s, t5), p);
  }

  lemma {:induction false} PathScan(s: Scan, path: Path)
    requires Settled(s) && ReadablePath(path)
    ensures Settled(Run(s, PathToString(path)))
    ensures Settle(Run(s, PathToString(path))) == Settle(s) + PathTokens(path)
    decreases path
  {
    hide Next, Settle, PartTokens, PartToString;
    if path != [] {
      PartScan(s, path[0]);
      RunAppend(s, PartToString(path[0]), PathToString(path[1..]));
      PathScan(Run(s, PartToString(path[0])), path[1..]);
    }
  }

  /** A separator between two pieces. */
  lemma SeparatorScan(s: Scan, separator: char)
    requires Settled(s) && (separator == '!' || separator == ',')
    ensures Settled(Run(s, [separator]))
    ensures Settle(Run(s, [separator])) == Settle(s) + [if separator == '!' then Indirection else Comma]
  {
    Delimit(s, separator);
    RunOne(s, separator);
  }

  lemma {:induction false} PathsScan(s: Scan, paths: seq<Path>)
    requires Settled(s) && ReadablePaths(paths)
    ensures Settled(Run(s, PathsToString(paths)))
    ensures Settle(Run(s, PathsToString(paths))) == Settle(s) + PathsTokens(paths)
    decreases |paths|
  {
    hide Next, Settle, PathTokens, PathToString;
    if paths != [] {
      var first := PathToString(paths[0]);
      PathScan(s, paths[0]);
      if |paths| > 1 {
        RunAppend(s, first, "!");
        SeparatorScan(Run(s, first), '!');
        RunAppend(s, first + "!", PathsToString(paths[1..]));
        PathsScan(Run(s, first + "!"), paths[1..]);
      }
    }
  }

  lemma InnerScan(s: Scan, c: Cfi)
    requires Settled(s) && ReadableCfi(c)
    ensures Settled(Run(s, ToInnerString(c)))
    ensures Settle(Run(s, ToInnerString(c))) == Settle(s) + InnerTokens(c)
  {
    hide Next, Run, Settle, Settled, PathsTokens, PathsToString;
    match c
    case Point(paths) => PathsScan(s, paths);
    case Range(parent, start, end) =>
      var t1 := PathsToString(parent);
      PathsScan(s, parent);
      RunAppend(s, t1, ",");
      SeparatorScan(Run(s, t1), ',');
      var t2 := t1 + "," + PathsToString(start);
      RunAppend(s, t1 + ",", PathsToString(start));
      PathsScan(Run(s, t1 + ","), start);
      RunAppend(s, t2, ",");
      SeparatorScan(Run(s, t2), ',');
      RunAppend(s, t2 + ",", PathsToString(end));
      PathsScan(Run(s, t2 + ","), end);
  }

  // ----- Nothing is trimmed off

  predicate Trimmed(s: string) {
    s == "" || (!IsSpace(s[0]) && !IsSpace(s[|s| - 1]))
  }

  lemma TrimmedAppend(a: string, b: string)
    requires Trimmed(a) && Trimmed(b)
    ensures Trimmed(a + b)
  {
  }

  lemma {:induction false} JoinNumerals(ts: seq<string>)
    requires ts != [] && forall k :: 0 <= k < |ts| ==> NumeralOrNaN(ts[k])
    ensures Join(ts, ":") != "" && !IsSpace(Join(ts, ":")[|Join(ts, ":")| - 1])
    decreases |ts|
  {
    if |ts| > 1 {
      JoinNumerals(ts[1..]);
    } else {
      assert NumeralOrNaN(ts[0]);
    }
  }

  lemma NumberTrimmed(x: Number)
    ensures var t := NumberText(x); Trimmed(t) && t != ""
  {
  }

  lemma PiecesTrimmed(p: Part)
    requires Canonical(p)
    ensures Trimmed("/" + NumberText(p.index)) && Trimmed(IdText(p)) && Trimmed(OffsetText(p))
    ensures Trimmed(TemporalText(p)) && Trimmed(SpatialText(p)) && Trimmed(AssertionText(p))
  {
    hide NumberText, Escape, Param, Join, ParseFloat;
    NumberTrimmed(p.index);
    TrimmedAppend("/", NumberText(p.index));
    if p.offset.Some? {
      NumberTrimmed(p.offset.value);
    }
    if p.spatial != [] {
      JoinNumerals(p.spatial);
    }
  }

  lemma PartTrimmed(p: Part)
    requires Canonical(p)
    ensures Trimmed(PartToString(p))
  {
    hide Trimmed, Canonical, NumberText, IdText, OffsetText, TemporalText, SpatialText, AssertionText;
    PiecesTrimmed(p);
    var t1 := "/" + NumberText(p.index);
    TrimmedAppend(t1, IdText(p));
    var t2 := t1 + IdText(p);
    TrimmedAppend(t2, OffsetText(p));
    var t3 := t2 + OffsetText(p);
    TrimmedAppend(t3, TemporalText(p));
    var t4 := t3 + TemporalText(p);
    TrimmedAppend(t4, SpatialText(p));
    TrimmedAppend(t4 + SpatialText(p), AssertionText(p));
  }

  lemma {:induction false} PathTrimmed(path: Path)
    requires CanonicalPath(path)
    ensures Trimmed(PathToString(path))
  {
    if path != [] {
      PartTrimmed(path[0]);
      PathTrimmed(path[1..]);
      TrimmedAppend(PartToString(path[0]), PathToString(path[1..]));
    }
  }

  lemma {:induction false} PathsTrimmed(paths: seq<Path>)
    requires CanonicalPaths(paths)
    ensures Trimmed(PathsToString(paths))
    decreases |paths|
  {
    if paths != [] {
      var first := PathToString(paths[0]);
      PathTrimmed(paths[0]);
      if |paths| > 1 {
        PathsTrimmed(paths[1..]);
        TrimmedAppend(first, "!");
        TrimmedAppend(first + "!", PathsToString(paths[1..]));
      }
    }
  }

  lemma InnerTrimmed(c: Cfi)
    requires CanonicalCfi(c)
    ensures Trimmed(ToInnerString(c))
  {
    match c
    case Point(paths) => PathsTrimmed(paths);
    case Range(parent, start, end) =>
      var t1, t2, t3 := PathsToString(parent), PathsToString(start), PathsToString(end);
      PathsTrimmed(parent);
      PathsTrimmed(start);
      PathsTrimmed(end);
      TrimmedAppend(t1, ",");
      TrimmedAppend(t1 + ",", t2);
      TrimmedAppend(t1 + "," + t2, ",");
      TrimmedAppend(t1 + "," + t2 + ",", t3);
  }

  lemma TrimIsIdentity(s: string)
    requires Trimmed(s)
    ensures Trim(s) == s
  {
  }

  /** Ids and texts may contain line terminators, which the wrapper's regular expression does not match; the wrapper is
      then tokenized with the rest, and yields nothing. */
  lemma PrintedTokens(c: Cfi)
    requires ReadableCfi(c)
    ensures Tokens(Unwrap(ToString(c))) == InnerTokens(c)
  {
    hide ReadablePaths, CanonicalPaths, InnerTokens, Trim, Run, Next, ToInnerString, Settled;
    var inner := ToInnerString(c);
    ReadableIsCanonical(c);
    InnerTrimmed(c);
    InnerStart(c);
    assert Settled(INITIAL) by {
      InitiallySettled();
    }
    InnerScan(INITIAL, c);
    var tail := WrappedFinish(inner);
    RunAppend(INITIAL, inner, tail);
    NothingLeft(Run(INITIAL, inner), tail);
    assert Settle(INITIAL) == [];
    assert [] + InnerTokens(c) == InnerTokens(c);
  }

  lemma InitiallySettled()
    ensures Settled(INITIAL)
  {
  }

  lemma ReadableIsCanonical(c: Cfi)
    requires ReadableCfi(c)
    ensures CanonicalCfi(c)
  {
    hide Canonical, PlainSide;
  }

  /** The tokens at the end of the input. */
  function Finished(s: Scan, text: string): seq<Token> {
    Next(Run(s, text), None).tokens
  }

  /** The wrapper adds nothing but perhaps a bracket at the end. */
  lemma WrappedFinish(inner: string) returns (tail: string)
    requires Trimmed(inner) && !IsCfi(inner)
    ensures tail == "" || tail == ")"
    ensures Tokens(Unwrap(Wrap(inner))) == Finished(INITIAL, inner + tail)
  {
    hide Trim, Run, Next;
    var wrapped := PREFIX + inner + ")";
    if IsCfi(wrapped) {
      assert Unwrap(wrapped) == inner;
      TrimIsIdentity(inner);
      tail := "";
      assert inner + "" == inner;
    } else {
      TrimIsIdentity(wrapped);
      JunkScan(INITIAL, PREFIX);
      assert wrapped == PREFIX + (inner + ")");
      RunAppend(INITIAL, PREFIX, inner + ")");
      tail := ")";
    }
  }

  /** At the end of the input, what is being collected is pushed. */
  lemma NothingLeft(s: Scan, tail: string)
    requires Settled(s) && (tail == "" || tail == ")")
    ensures Finished(s, tail) == Settle(s)
  {
    hide Next, Run;
    EndScan(s);
    RunNone(s);
    RunOne(s, ')');
  }

  lemma EndScan(s: Scan)
    requires Settled(s)
    ensures Next(s, None).tokens == Settle(s)
    ensures Next(Next(s, Some(')')), None).tokens == Settle(s)
  {
  }

  /** The inner text is never itself taken for a wrapped one. */
  lemma InnerStart(c: Cfi)
    requires !c.OpenRange?
    ensures !IsCfi(ToInnerString(c))
  {
    var inner := ToInnerString(c);
    PathsStart(if c.Point? then c.paths else c.parent);
    assert PREFIX[0] == 'e';
    if |inner| > |PREFIX| {
      assert inner[..|PREFIX|][0] == inner[0];
    }
  }

  lemma {:induction false} PathsStart(paths: seq<Path>)
    ensures var t := PathsToString(paths); t == "" || t[0] == '/' || t[0] == '!'
  {
  }
}
