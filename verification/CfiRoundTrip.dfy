/** Parsing what was printed: every readable identifier comes back as its reread form, and the reread form is the
    identifier itself exactly when its parts are printable. */
module CfiRoundTrip {
  import opened Wrappers
  import opened CfiSyntax
  import opened CfiPrintable
  import opened CfiScan

  // ----- Parsing the tokens

  lemma {:induction false} SplitPlain(tokens: seq<Token>, separator: Token)
    requires separator !in tokens
    ensures Split(tokens, separator) == [tokens]
  {
    if tokens != [] {
      SplitPlain(tokens[1..], separator);
      assert [tokens[0]] + tokens[1..] == tokens;
    }
  }

  lemma {:induction false} SplitAppend(a: seq<Token>, separator: Token, b: seq<Token>)
    requires separator !in a
    ensures Split(a + [separator] + b, separator) == [a] + Split(b, separator)
  {
    var tokens := a + [separator] + b;
    if a == [] {
      assert tokens[0] == separator && tokens[1..] == b;
    } else {
      assert tokens[0] == a[0] && tokens[1..] == a[1..] + [separator] + b;
      SplitAppend(a[1..], separator, b);
      assert [a[0]] + a[1..] == a;
    }
  }

  predicate NoSeparator(tokens: seq<Token>) {
    forall k :: 0 <= k < |tokens| ==> !tokens[k].Indirection? && !tokens[k].Comma?
  }

  lemma {:induction false} StringTokensPlain(ts: seq<string>)
    ensures NoSeparator(Spatials(ts)) && NoSeparator(Offsets(ts)) && NoSeparator(Brackets(ts))
  {
    if ts != [] {
      StringTokensPlain(ts[1..]);
    }
  }

  lemma PiecesPlain(p: Part)
    ensures NoSeparator(IdTokens(p)) && NoSeparator(OffsetTokens(p)) && NoSeparator(TemporalTokens(p))
    ensures NoSeparator(SpatialTokens(p.spatial)) && NoSeparator(AssertionTokens(p))
  {
    hide Spatials, Offsets, Brackets, Shown, UpToNaN, AfterNaN, OffsetRead;
    StringTokensPlain(UpToNaN(p.spatial));
    StringTokensPlain(AfterNaN(p.spatial));
    StringTokensPlain(Shown(p));
  }

  lemma PartTokensPlain(p: Part)
    ensures NoSeparator(PartTokens(p))
  {
    hide IdTokens, OffsetTokens, TemporalTokens, SpatialTokens, AssertionTokens;
    PiecesPlain(p);
  }

  lemma {:induction false} PathTokensPlain(path: Path)
    ensures NoSeparator(PathTokens(path))
  {
    hide PartTokens;
    if path != [] {
      PartTokensPlain(path[0]);
      PathTokensPlain(path[1..]);
    }
  }

  lemma {:induction false} PathsTokensPlain(paths: seq<Path>)
    ensures Comma !in PathsTokens(paths)
    decreases |paths|
  {
    if paths != [] {
      PathTokensPlain(paths[0]);
      if |paths| > 1 {
        PathsTokensPlain(paths[1..]);
      }
    }
  }

  lemma ReadOne(r: Reading, t: Token)
    ensures ReadAll(r, [t]) == Read(r, t)
  {
  }

  lemma {:induction false} ReadSpatials(parts: Path, last: Part, after: bool, ts: seq<string>)
    ensures ReadAll(Reading(parts + [last], after), Spatials(ts)) ==
            Success(if ts == [] then Reading(parts + [last], after) else Reading(parts + [last.(spatial := last.spatial + ts)], false))
    decreases |ts|
  {
    if ts != [] {
      var next := last.(spatial := last.spatial + [ts[0]]);
      ReadSpatials(parts, next, false, ts[1..]);
      assert Spatials(ts) == [Spatial(ts[0])] + Spatials(ts[1..]);
      ReadOne(Reading(parts + [last], after), Spatial(ts[0]));
      ReadThen(Reading(parts + [last], after), [Spatial(ts[0])], Reading(parts + [next], false), Spatials(ts[1..]));
      assert last.spatial + [ts[0]] + ts[1..] == last.spatial + ts;
      assert |ts| == 1 ==> [ts[0]] == ts;
    }
  }

  lemma {:induction false} ReadOffsets(parts: Path, last: Part, after: bool, ts: seq<string>)
    ensures ReadAll(Reading(parts + [last], after), Offsets(ts)) ==
            Success(if ts == [] then Reading(parts + [last], after)
                    else Reading(parts + [last.(offset := Some(OffsetRead(ts[|ts| - 1])))], false))
    decreases |ts|
  {
    hide OffsetRead;
    if ts != [] {
      var next := last.(offset := Some(OffsetRead(ts[0])));
      ReadOffsets(parts, next, false, ts[1..]);
      assert Offsets(ts) == [Offset(OffsetRead(ts[0]))] + Offsets(ts[1..]);
      ReadOne(Reading(parts + [last], after), Offset(OffsetRead(ts[0])));
      ReadThen(Reading(parts + [last], after), [Offset(OffsetRead(ts[0]))], Reading(parts + [next], false), Offsets(ts[1..]));
    }
  }

  /** The spatial offsets, and the character offsets that follow one that is not a number. */
  lemma ReadSpatialTokens(parts: Path, last: Part, after: bool, ts: seq<string>)
    requires last.spatial == []
    ensures ReadAll(Reading(parts + [last], after), SpatialTokens(ts)) ==
            Success(Reading(parts + [last.(spatial := UpToNaN(ts),
                                           offset := if AfterNaN(ts) == [] then last.offset
                                                     else Some(OffsetRead(AfterNaN(ts)[|AfterNaN(ts)| - 1])))],
                            after && ts == []))
  {
    hide ReadAll, Read, Spatials, Offsets, OffsetRead;
    var upTo := UpToNaN(ts);
    var next := last.(spatial := upTo);
    ReadSpatials(parts, last, after, upTo);
    assert last.spatial + upTo == upTo;
    ReadThen(Reading(parts + [last], after), Spatials(upTo), Reading(parts + [next], after && upTo == []), Offsets(AfterNaN(ts)));
    ReadOffsets(parts, next, after && upTo == [], AfterNaN(ts));
  }

  /** Reading one bracket, and then the rest. */
  lemma ReadBracket(parts: Path, last: Part, after: bool, t: string, rest: seq<Token>)
    ensures ReadAll(Reading(parts + [last], after), [Bracket(t)] + rest) ==
            if after && t != "" then ReadAll(Reading(parts + [last.(id := t)], false), rest)
            else ReadAll(Reading(parts + [last.(text := last.text + [t])], after), rest)
  {
  }

  lemma ReadNothing(r: Reading)
    ensures ReadAll(r, []) == Success(r)
  {
  }

  /** Brackets after an id or an offset are all texts. */
  lemma {:induction false} ReadTexts(parts: Path, last: Part, ts: seq<string>)
    ensures ReadAll(Reading(parts + [last], false), Brackets(ts)) == Success(Reading(parts + [last.(text := last.text + ts)], false))
    decreases |ts|
  {
    hide Read, ReadAll;
    if ts == [] {
      assert last.text + ts == last.text;
      ReadNothing(Reading(parts + [last], false));
    } else {
      ReadBracket(parts, last, false, ts[0], Brackets(ts[1..]));
      ReadTexts(parts, last.(text := last.text + [ts[0]]), ts[1..]);
      assert last.text + [ts[0]] + ts[1..] == last.text + ts;
    }
  }

  /** Brackets directly after the index: the first one that is not blank becomes the id. */
  lemma {:induction false} ReadLooseTexts(parts: Path, last: Part, ts: seq<string>)
    ensures var k := FirstNonEmpty(ts);
            ReadAll(Reading(parts + [last], true), Brackets(ts)) ==
            if k == |ts| then Success(Reading(parts + [last.(text := last.text + ts)], true))
            else Success(Reading(parts + [last.(id := ts[k], text := last.text + (ts[..k] + ts[k + 1..]))], false))
    decreases |ts|
  {
    hide Read, ReadAll;
    if ts == [] {
      assert last.text + ts == last.text;
      ReadNothing(Reading(parts + [last], true));
    } else {
      ReadBracket(parts, last, true, ts[0], Brackets(ts[1..]));
      if ts[0] != "" {
        ReadTexts(parts, last.(id := ts[0]), ts[1..]);
        assert ts[..0] + ts[1..] == ts[1..];
      } else {
        var k := FirstNonEmpty(ts);
        ReadLooseTexts(parts, last.(text := last.text + [ts[0]]), ts[1..]);
        hide FirstNonEmpty;
        if k == |ts| {
          assert last.text + [ts[0]] + ts[1..] == last.text + ts;
        } else {
          LooseSplit(last.text, ts, k);
        }
      }
    }
  }

  lemma LooseSplit(text: seq<string>, ts: seq<string>, k: nat)
    requires 0 < k < |ts|
    ensures text + [ts[0]] + (ts[1..][..k - 1] + ts[1..][k..]) == text + (ts[..k] + ts[k + 1..])
    ensures ts[1..][k - 1] == ts[k]
  {
  }

  lemma ReadThen(r: Reading, a: seq<Token>, m: Reading, b: seq<Token>)
    requires ReadAll(r, a) == Success(m)
    ensures ReadAll(r, a + b) == ReadAll(m, b)
  {
    hide ReadAll, Read;
    ReadAllAppend(r, a, b);
  }

  lemma ReadId(parts: Path, last: Part, p: Part)
    ensures ReadAll(Reading(parts + [last], true), IdTokens(p)) ==
            Success(Reading(parts + [if p.id == "" then last else last.(id := p.id, side := if p.side == "" then last.side else p.side)], p.id == ""))
  {
    if p.id != "" {
      ReadOne(Reading(parts + [last], true), Bracket(p.id));
      var named := Reading(parts + [last.(id := p.id)], false);
      ReadThen(Reading(parts + [last], true), [Bracket(p.id)], named, ParamTokens(p));
      if p.side != "" {
        ReadOne(named, Parameter("s", p.side));
      }
    }
  }

  lemma ReadOffset(parts: Path, last: Part, after: bool, p: Part)
    ensures ReadAll(Reading(parts + [last], after), OffsetTokens(p)) ==
            Success(if OffsetTokens(p) == [] then Reading(parts + [last], after) else Reading(parts + [last.(offset := p.offset)], false))
  {
  }

  lemma ReadTemporal(parts: Path, last: Part, after: bool, p: Part)
    ensures ReadAll(Reading(parts + [last], after), TemporalTokens(p)) ==
            Success(if TemporalTokens(p) == [] then Reading(parts + [last], after) else Reading(parts + [last.(temporal := p.temporal)], false))
  {
  }

  /** The fields before the texts, and whether the next bracket could still be an id. */
  lemma ReadHead(r: Reading, p: Part)
    ensures ReadAll(r, [Step(p.index)] + IdTokens(p) + OffsetTokens(p) + TemporalTokens(p) + SpatialTokens(p.spatial)) ==
            Success(Reading(r.parts + [Headed(p)], !TextFollowsSomething(p)))
  {
    hide ReadAll, Read, IdTokens, SpatialTokens, OffsetRead;
    var q0 := Part(p.index, "", None, "", [], [], "");
    var q1 := if p.id == "" then q0 else q0.(id := p.id, side := p.side);
    var q2 := if OffsetTokens(p) == [] then q1 else q1.(offset := p.offset);
    var q3 := if TemporalTokens(p) == [] then q2 else q2.(temporal := p.temporal);
    var b1 := p.id == "";
    var b2 := b1 && OffsetTokens(p) == [];
    var b3 := b2 && TemporalTokens(p) == [];
    var h1 := [Step(p.index)] + IdTokens(p);
    var h2 := h1 + OffsetTokens(p);
    var h3 := h2 + TemporalTokens(p);
    ReadStep(r, p.index);
    ReadThen(r, [Step(p.index)], Reading(r.parts + [q0], true), IdTokens(p));
    ReadId(r.parts, q0, p);
    ReadThen(r, h1, Reading(r.parts + [q1], b1), OffsetTokens(p));
    ReadOffset(r.parts, q1, b1, p);
    ReadThen(r, h2, Reading(r.parts + [q2], b2), TemporalTokens(p));
    ReadTemporal(r.parts, q2, b2, p);
    ReadThen(r, h3, Reading(r.parts + [q3], b3), SpatialTokens(p.spatial));
    ReadSpatialTokens(r.parts, q3, b3, p.spatial);
  }

  lemma ReadStep(r: Reading, x: Number)
    ensures ReadAll(r, [Step(x)]) == Success(Reading(r.parts + [Part(x, "", None, "", [], [], "")], true))
  {
  }

  lemma ReadParam(parts: Path, last: Part, after: bool, p: Part)
    ensures var q := ReadAll(Reading(parts + [last], after), ParamTokens(p));
            q.Success? && q.value.parts == parts + [if p.side == "" then last else last.(side := p.side)]
  {
  }

  /** The part once everything before its texts is read. */
  function Headed(p: Part): Part {
    Reread(p).(id := p.id, text := [], side := if p.id != "" then p.side else "")
  }

  lemma ReadFollowingTexts(parts: Path, p: Part)
    requires TextFollowsSomething(p) && Shown(p) != []
    ensures var q := ReadAll(Reading(parts + [Headed(p)], false), AssertionTokens(p));
            q.Success? && q.value.parts == parts + [Reread(p)]
  {
    hide Read, ReadAll, Brackets, ParamTokens, TextFollowsSomething;
    var shown := Shown(p);
    assert [] + shown == shown;
    ReadAllAppend(Reading(parts + [Headed(p)], false), Brackets(shown), ParamTokens(p));
    ReadTexts(parts, Headed(p), shown);
    ReadParam(parts, Headed(p).(text := shown), false, p);
  }

  lemma ReadFirstTexts(parts: Path, p: Part)
    requires !TextFollowsSomething(p) && Shown(p) != []
    ensures var q := ReadAll(Reading(parts + [Headed(p)], true), AssertionTokens(p));
            q.Success? && q.value.parts == parts + [Reread(p)]
  {
    assert p.id == "";
    hide Read, ReadAll, Brackets, ParamTokens, TextFollowsSomething;
    var shown := Shown(p);
    var k := FirstNonEmpty(shown);
    var last := Headed(p);
    ReadAllAppend(Reading(parts + [last], true), Brackets(shown), ParamTokens(p));
    ReadLooseTexts(parts, last, shown);
    if k == |shown| {
      assert last.text + shown == shown;
      ReadParam(parts, last.(text := shown), true, p);
    } else {
      var texts := shown[..k] + shown[k + 1..];
      assert last.text + texts == texts;
      ReadParam(parts, last.(id := shown[k], text := texts), false, p);
    }
  }

  lemma ReadAssertion(parts: Path, p: Part)
    ensures var q := ReadAll(Reading(parts + [Headed(p)], !TextFollowsSomething(p)), AssertionTokens(p));
            q.Success? && q.value.parts == parts + [Reread(p)]
  {
    if Shown(p) == [] {
    } else if TextFollowsSomething(p) {
      ReadFollowingTexts(parts, p);
    } else {
      ReadFirstTexts(parts, p);
    }
  }

  lemma ReadPart(r: Reading, p: Part)
    ensures var q := ReadAll(r, PartTokens(p)); q.Success? && q.value.parts == r.parts + [Reread(p)]
  {
    hide ReadAll, Reread, Headed, IdTokens, OffsetTokens, TemporalTokens, SpatialTokens, AssertionTokens;
    var head := [Step(p.index)] + IdTokens(p) + OffsetTokens(p) + TemporalTokens(p) + SpatialTokens(p.spatial);
    ReadHead(r, p);
    ReadAllAppend(r, head, AssertionTokens(p));
    assert PartTokens(p) == head + AssertionTokens(p);
    ReadAssertion(r.parts, p);
  }

  lemma {:induction false} ReadPath(r: Reading, path: Path)
    ensures var q := ReadAll(r, PathTokens(path)); q.Success? && q.value.parts == r.parts + RereadPath(path)
    decreases path
  {
    hide Read, Reread, PartTokens;
    if path == [] {
      assert r.parts + RereadPath(path) == r.parts;
    } else {
      ReadPart(r, path[0]);
      ReadAllAppend(r, PartTokens(path[0]), PathTokens(path[1..]));
      ReadPath(ReadAll(r, PartTokens(path[0])).value, path[1..]);
      assert RereadPath(path) == [Reread(path[0])] + RereadPath(path[1..]);
    }
  }

  lemma ParsePathOfTokens(path: Path)
    ensures ParsePath(PathTokens(path)) == Success(RereadPath(path))
  {
    hide ReadAll, RereadPath;
    ReadPath(Reading([], false), path);
    assert [] + RereadPath(path) == RereadPath(path);
  }

  lemma {:induction false} ParsePathsOfTokens(paths: seq<Path>)
    requires paths != []
    ensures ParsePaths(PathsTokens(paths)) == Success(RereadPaths(paths))
    decreases |paths|
  {
    hide ParsePath, PathTokens, RereadPath;
    PathTokensPlain(paths[0]);
    ParsePathOfTokens(paths[0]);
    assert RereadPaths(paths) == [RereadPath(paths[0])] + RereadPaths(paths[1..]);
    if |paths| == 1 {
      SplitPlain(PathTokens(paths[0]), Indirection);
      assert ParseRuns([PathTokens(paths[0])][1..]) == Success([]);
    } else {
      SplitAppend(PathTokens(paths[0]), Indirection, PathsTokens(paths[1..]));
      ParsePathsOfTokens(paths[1..]);
      var runs := Split(PathsTokens(paths), Indirection);
      assert runs[0] == PathTokens(paths[0]) && runs[1..] == Split(PathsTokens(paths[1..]), Indirection);
    }
  }

  lemma ParseAllCons(paths: seq<Path>, runs: seq<seq<Token>>)
    requires paths != [] && ParseAll(runs).Success?
    ensures ParseAll([PathsTokens(paths)] + runs) == Success([RereadPaths(paths)] + ParseAll(runs).value)
  {
    hide ParsePaths, PathsTokens, RereadPaths;
    ParsePathsOfTokens(paths);
    assert ([PathsTokens(paths)] + runs)[1..] == runs;
  }

  // ----- Main results

  /** For all ids, texts, indices and offsets, what is read back is the reread form of what was printed. */
  lemma ParseToString(c: Cfi)
    requires ReadableCfi(c)
    ensures Parse(ToString(c)) == Success(RereadCfi(c))
  {
    hide ReadablePaths, PathsTokens, RereadPaths, Split, ParsePaths, ToString, Tokens, Unwrap;
    PrintedTokens(c);
    match c
    case Point(paths) =>
      PathsTokensPlain(paths);
      SplitPlain(PathsTokens(paths), Comma);
      ParseAllCons(paths, []);
      assert [PathsTokens(paths)] + [] == [PathsTokens(paths)];
    case Range(parent, start, end) =>
      var a, b, e := PathsTokens(parent), PathsTokens(start), PathsTokens(end);
      PathsTokensPlain(parent);
      PathsTokensPlain(start);
      PathsTokensPlain(end);
      SplitPlain(e, Comma);
      SplitAppend(b, Comma, e);
      SplitAppend(a, Comma, b + [Comma] + e);
      assert InnerTokens(c) == a + [Comma] + (b + [Comma] + e);
      ParseAllCons(end, []);
      assert [e] + [] == [e];
      ParseAllCons(start, [e]);
      assert [b] + [e] == [b, e];
      ParseAllCons(parent, [b, e]);
      assert [a] + [b, e] == [a, b, e];
      assert Split(Tokens(Unwrap(ToString(c))), Comma) == [a, b, e];
  }

  /** A part with a plain side survives exactly when it is printable. */
  lemma RereadIffPrintable(p: Part)
    requires PlainSide(p.side)
    ensures Reread(p) == p <==> Printable(p)
  {
  }

  lemma RereadPathsIffPrintable(paths: seq<Path>)
    requires ReadablePaths(paths)
    ensures RereadPaths(paths) == paths <==> PrintablePaths(paths)
  {
    hide Reread, Printable, Canonical, PlainSide;
    forall k | 0 <= k < |paths|
      ensures RereadPaths(paths)[k] == paths[k] <==> PrintablePath(paths[k])
    {
      assert ReadablePath(paths[k]);
      forall j | 0 <= j < |paths[k]|
        ensures RereadPath(paths[k])[j] == paths[k][j] <==> Printable(paths[k][j])
      {
        RereadIffPrintable(paths[k][j]);
      }
      if PrintablePath(paths[k]) {
        assert RereadPath(paths[k]) == paths[k];
      }
    }
    if PrintablePaths(paths) {
      assert RereadPaths(paths) == paths;
    }
  }

  /** With plain sides, the parser undoes the printer exactly on printable identifiers. */
  lemma PlainRoundTripIffPrintable(c: Cfi)
    requires ReadableCfi(c)
    ensures Parse(ToString(c)) == Success(c) <==> PrintableCfi(c)
  {
    hide ReadablePaths, PrintablePaths, RereadPaths, Parse, ToString;
    ParseToString(c);
    match c
    case Point(paths) => RereadPathsIffPrintable(paths);
    case Range(parent, start, end) =>
      RereadPathsIffPrintable(parent);
      RereadPathsIffPrintable(start);
      RereadPathsIffPrintable(end);
  }

  // ----- Printing once more

  /** No character offset is misread on a step that would not print it. */
  predicate Settling(p: Part) {
    Odd(p.index) || AfterNaN(p.spatial) == []
  }

  ghost predicate SettlingPath(path: Path) {
    forall k :: 0 <= k < |path| ==> Settling(path[k])
  }

  ghost predicate SettlingPaths(paths: seq<Path>) {
    forall k :: 0 <= k < |paths| ==> SettlingPath(paths[k])
  }

  ghost predicate SettlingCfi(c: Cfi) {
    match c
    case Point(paths) => SettlingPaths(paths)
    case Range(parent, start, end) => SettlingPaths(parent) && SettlingPaths(start) && SettlingPaths(end)
    case OpenRange(_, _) => false
  }

  lemma {:induction false} UpToNaNIsFinal(ts: seq<string>)
    ensures UpToNaN(UpToNaN(ts)) == UpToNaN(ts) && AfterNaN(UpToNaN(ts)) == []
    ensures UpToNaN(ts) == [] <==> ts == []
    decreases |ts|
  {
    if ts != [] && ts[0] != "NaN" {
      UpToNaNIsFinal(ts[1..]);
      assert UpToNaN(ts)[1..] == UpToNaN(ts[1..]);
    }
  }

  lemma RereadSettles(p: Part)
    requires Readable(p)
    ensures Readable(Reread(p)) && Settling(Reread(p))
    ensures Printable(Reread(p)) <==> Settling(p)
  {
    hide UpToNaN, NumeralOrNaN, OffsetRead, PlainSide;
    UpToNaNIsFinal(p.spatial);
  }

  lemma RereadPathsSettle(paths: seq<Path>)
    requires ReadablePaths(paths)
    ensures ReadablePaths(RereadPaths(paths)) && SettlingPaths(RereadPaths(paths))
    ensures PrintablePaths(RereadPaths(paths)) <==> SettlingPaths(paths)
  {
    hide Reread, Readable, Printable, Settling;
    forall k | 0 <= k < |paths|
      ensures ReadablePath(RereadPaths(paths)[k]) && SettlingPath(RereadPaths(paths)[k])
      ensures PrintablePath(RereadPaths(paths)[k]) <==> SettlingPath(paths[k])
    {
      assert ReadablePath(paths[k]);
      RereadPathSettles(paths[k]);
    }
  }

  lemma RereadPathSettles(path: Path)
    requires ReadablePath(path)
    ensures ReadablePath(RereadPath(path)) && SettlingPath(RereadPath(path))
    ensures PrintablePath(RereadPath(path)) <==> SettlingPath(path)
  {
    hide Reread, Readable, Printable, Settling;
    forall k | 0 <= k < |path|
      ensures Readable(RereadPath(path)[k]) && Settling(RereadPath(path)[k])
      ensures Printable(RereadPath(path)[k]) <==> Settling(path[k])
    {
      RereadSettles(path[k]);
    }
  }

  /** What was read back once survives a second round trip if and only if no character offset was misread on an even
      step; what was read back twice survives every further one. */
  lemma RereadSurvivesIff(c: Cfi)
    requires ReadableCfi(c)
    ensures var d := RereadCfi(c); ReadableCfi(d) && (Parse(ToString(d)) == Success(d) <==> SettlingCfi(c))
    ensures var e := RereadCfi(RereadCfi(c)); ReadableCfi(e) && Parse(ToString(e)) == Success(e)
  {
    hide ReadablePaths, PrintablePaths, SettlingPaths, RereadPaths, Parse, ToString;
    RereadCfiSettles(c);
    RereadCfiSettles(RereadCfi(c));
    PlainRoundTripIffPrintable(RereadCfi(c));
    PlainRoundTripIffPrintable(RereadCfi(RereadCfi(c)));
  }

  lemma RereadCfiSettles(c: Cfi)
    requires ReadableCfi(c)
    ensures ReadableCfi(RereadCfi(c)) && SettlingCfi(RereadCfi(c))
    ensures PrintableCfi(RereadCfi(c)) <==> SettlingCfi(c)
  {
    hide ReadablePaths, PrintablePaths, SettlingPaths;
    match c
    case Point(paths) => RereadPathsSettle(paths);
    case Range(parent, start, end) =>
      RereadPathsSettle(parent);
      RereadPathsSettle(start);
      RereadPathsSettle(end);
  }
}
