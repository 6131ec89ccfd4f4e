/** MOBI 6 books: the text is cut into sections at page breaks, and an anchor is inserted for every referenced byte
    position, so that a link lands before the byte it names. */
module Mobi6 {
  import opened Bytes
  import Decimal

  // ----- Sections

  datatype Section = Section(start: nat, end: nat, raw: seq<Byte>)

  /** The matches of the page break pattern, in order. */
  predicate AreBreaks(text: seq<Byte>, breaks: seq<nat>) {
    && (forall i :: 0 <= i < |breaks| ==> breaks[i] < |text|)
    && (forall i, j :: 0 <= i < j < |breaks| ==> breaks[i] < breaks[j])
  }

  /** Cuts at `starts`, and numbers each section from the end of the one before it. */
  function SectionsFrom(text: seq<Byte>, starts: seq<nat>, start: nat): (sections: seq<Section>)
    requires forall i :: 0 <= i < |starts| ==> starts[i] <= |text|
    requires forall i, j :: 0 <= i < j < |starts| ==> starts[i] <= starts[j]
    ensures |sections| == |starts|
  {
    if starts == [] then [] else
    var raw := text[starts[0]..if |starts| > 1 then starts[1] else |text|];
    [Section(start, start + |raw|, raw)] + SectionsFrom(text, starts[1..], start + |raw|)
  }

  function Sections(text: seq<Byte>, breaks: seq<nat>): seq<Section>
    requires AreBreaks(text, breaks)
  {
    SectionsFrom(text, [0] + breaks, 0)
  }

  /** The first section that ends after byte `n`, or -1. */
  function FindSection(sections: seq<Section>, n: nat): (index: int)
    ensures -1 <= index < |sections|
  {
    if sections == [] then -1
    else if sections[0].end > n then 0
    else var rest := FindSection(sections[1..], n); if rest < 0 then -1 else 1 + rest
  }

  /** Each section is the slice between its two positions, the next one starts where it ends. */
  ghost predicate Tiles(text: seq<Byte>, sections: seq<Section>, start: nat) {
    && sections != []
    && sections[0].start == start
    && sections[|sections| - 1].end == |text|
    && (forall i :: 0 <= i < |sections| ==>
          && sections[i].start <= sections[i].end <= |text|
          && sections[i].raw == text[sections[i].start..sections[i].end])
    && (forall i :: 0 < i < |sections| ==> sections[i].start == sections[i - 1].end)
  }

  lemma TilesCons(text: seq<Byte>, first: Section, rest: seq<Section>)
    requires first.start <= first.end <= |text| && first.raw == text[first.start..first.end]
    requires Tiles(text, rest, first.end)
    ensures Tiles(text, [first] + rest, first.start)
  {
    var sections := [first] + rest;
    assert forall i :: 0 < i < |sections| ==> sections[i] == rest[i - 1];
  }

  lemma {:induction false} SectionsFromTile(text: seq<Byte>, starts: seq<nat>)
    requires starts != []
    requires forall i :: 0 <= i < |starts| ==> starts[i] <= |text|
    requires forall i, j :: 0 <= i < j < |starts| ==> starts[i] <= starts[j]
    ensures Tiles(text, SectionsFrom(text, starts, starts[0]), starts[0])
    decreases |starts|
  {
    hide Tiles;
    var sections := SectionsFrom(text, starts, starts[0]);
    if |starts| > 1 {
      SectionsFromTile(text, starts[1..]);
      TilesCons(text, sections[0], SectionsFrom(text, starts[1..], starts[1]));
    } else {
      assert sections == [sections[0]];
      OneTile(text, sections[0]);
    }
  }

  lemma OneTile(text: seq<Byte>, section: Section)
    requires section.start <= section.end == |text| && section.raw == text[section.start..section.end]
    ensures Tiles(text, [section], section.start)
  {
  }

  lemma {:induction false} SectionsStart(text: seq<Byte>, starts: seq<nat>, i: nat)
    requires i < |starts|
    requires forall i :: 0 <= i < |starts| ==> starts[i] <= |text|
    requires forall i, j :: 0 <= i < j < |starts| ==> starts[i] <= starts[j]
    ensures SectionsFrom(text, starts, starts[0])[i].start == starts[i]
    decreases |starts|
  {
    if i > 0 {
      SectionsStart(text, starts[1..], i - 1);
    }
  }

  /** A section starts at the beginning and at each page break, and goes on to the next. */
  lemma SectionsTile(text: seq<Byte>, breaks: seq<nat>)
    requires AreBreaks(text, breaks)
    ensures Tiles(text, Sections(text, breaks), 0)
    ensures |Sections(text, breaks)| == |breaks| + 1
    ensures forall i :: 0 <= i < |breaks| ==> Sections(text, breaks)[i + 1].start == breaks[i]
  {
    hide Tiles;
    SectionsFromTile(text, [0] + breaks);
    forall i | 0 <= i < |breaks|
      ensures Sections(text, breaks)[i + 1].start == breaks[i]
    {
      SectionsStart(text, [0] + breaks, i + 1);
    }
  }

  function RawOf(sections: seq<Section>): seq<Byte> {
    if sections == [] then [] else sections[0].raw + RawOf(sections[1..])
  }

  lemma {:induction false} TilesCover(text: seq<Byte>, sections: seq<Section>, start: nat)
    requires Tiles(text, sections, start)
    ensures start <= |text| && RawOf(sections) == text[start..]
    decreases |sections|
  {
    if |sections| == 1 {
      assert sections[1..] == [];
    } else {
      var next := sections[1].start;
      TilesCover(text, sections[1..], next);
      assert text[start..next] + text[next..] == text[start..];
    }
  }

  /** Exactly the positions inside the text are in a section, and then in the one that is found. */
  lemma {:induction false} FoundSectionContains(text: seq<Byte>, sections: seq<Section>, start: nat, n: nat)
    requires Tiles(text, sections, start) && start <= n
    ensures var index := FindSection(sections, n);
            && (index >= 0 <==> n < |text|)
            && (index >= 0 ==> sections[index].start <= n < sections[index].end)
            && forall i :: 0 <= i < |sections| ==> (sections[i].start <= n < sections[i].end <==> i == index)
    decreases |sections|
  {
    if sections[0].end > n {
      LaterSections(text, sections, start, 0);
    } else if |sections| > 1 {
      FoundSectionContains(text, sections[1..], sections[1].start, n);
      var index := FindSection(sections, n);
      forall i | 0 <= i < |sections|
        ensures sections[i].start <= n < sections[i].end <==> i == index
      {
        if i > 0 {
          assert sections[i] == sections[1..][i - 1];
        }
      }
    }
  }

  lemma {:induction false} LaterSections(text: seq<Byte>, sections: seq<Section>, start: nat, k: nat)
    requires Tiles(text, sections, start) && k < |sections|
    ensures forall i :: k < i < |sections| ==> sections[i].start >= sections[k].end
    decreases |sections| - k
  {
    if k + 1 < |sections| {
      LaterSections(text, sections, start, k + 1);
    }
  }

  // ----- Anchors

  /** A referenced position: its digits as written, and its place in the section. */
  datatype Reference = Reference(filepos: string, offset: nat)

  /** The anchored text of a section, with the anchors kept apart from the bytes. */
  datatype Item = Raw(b: Byte) | Anchor(filepos: string)

  function RawItems(bytes: seq<Byte>): seq<Item> {
    seq(|bytes|, i requires 0 <= i < |bytes| => Raw(bytes[i]))
  }

  predicate InRange(raw: seq<Byte>, list: seq<Reference>) {
    && (forall k :: 0 <= k < |list| ==> list[k].offset <= |raw|)
    && (forall i, j :: 0 <= i < j < |list| ==> list[i].offset <= list[j].offset)
  }

  function Anchored(raw: seq<Byte>, list: seq<Reference>, from: nat): seq<Item>
    requires InRange(raw, list) && from <= |raw| && (list != [] ==> from <= list[0].offset)
    decreases |list|
  {
    if list == [] then RawItems(raw[from..])
    else RawItems(raw[from..list[0].offset]) + [Anchor(list[0].filepos)] + Anchored(raw, list[1..], list[0].offset)
  }

  function CharByte(c: char): Byte {
    c as int % 256
  }

  function AsciiBytes(s: string): seq<Byte> {
    seq(|s|, i requires 0 <= i < |s| => CharByte(s[i]))
  }

  function AnchorBytes(filepos: string): seq<Byte> {
    AsciiBytes("<a id=\"filepos" + filepos + "\"></a>")
  }

  /** A link is resolved to a section, and to the id of an element in it. */
  method ResolveHref(sections: seq<Section>, filepos: string) returns (index: int, id: string)
    ensures index == FindSection(sections, Decimal.Value(filepos))
    ensures id == "filepos" + filepos
  {
    index, id := FindSection(sections, Decimal.Value(filepos)), "filepos" + filepos;
  }

  /** The anchor of a reference is an element with just the id that links to it are resolved to, and nothing in that id ends
      the attribute. */
  lemma AnchorHasTheId(filepos: string)
    requires Decimal.AllDigits(filepos)
    ensures var id := "filepos" + filepos;
            && AnchorBytes(filepos) == [60, 97, 32, 105, 100, 61, 34] + AsciiBytes(id) + [34, 62, 60, 47, 97, 62]
            && 34 !in AsciiBytes(id)
            && |AsciiBytes(id)| == |id| && forall k :: 0 <= k < |id| ==> AsciiBytes(id)[k] as char == id[k]
  {
    var open, id, close := "<a id=\"", "filepos" + filepos, "\"></a>";
    assert "<a id=\"filepos" + filepos + "\"></a>" == open + id + close;
    AsciiAppend(open + id, close);
    AsciiAppend(open, id);
    assert AsciiBytes(open) == [60, 97, 32, 105, 100, 61, 34] && AsciiBytes(close) == [34, 62, 60, 47, 97, 62];
    LettersOfId(filepos);
  }

  lemma LettersOfId(filepos: string)
    requires Decimal.AllDigits(filepos)
    ensures forall c <- "filepos" + filepos :: 48 <= c as int < 128
  {
  }

  lemma AsciiAppend(a: string, b: string)
    ensures AsciiBytes(a + b) == AsciiBytes(a) + AsciiBytes(b)
  {
  }

  /** The bytes that are handed to the text decoder. */
  function Render(items: seq<Item>): seq<Byte> {
    if items == [] then [] else ItemBytes(items[0]) + Render(items[1..])
  }

  function ItemBytes(item: Item): seq<Byte> {
    match item
    case Raw(b) => [b]
    case Anchor(filepos) => AnchorBytes(filepos)
  }

  function Erase(items: seq<Item>): seq<Byte> {
    if items == [] then [] else RawByte(items[0]) + Erase(items[1..])
  }

  function RawByte(item: Item): seq<Byte> {
    if item.Raw? then [item.b] else []
  }

  lemma {:induction false} RenderAppend(a: seq<Item>, b: seq<Item>)
    ensures Render(a + b) == Render(a) + Render(b)
  {
    hide AnchorBytes, ItemBytes;
    if a == [] {
      assert a + b == b;
    } else {
      assert (a + b)[1..] == a[1..] + b;
      RenderAppend(a[1..], b);
      assert ItemBytes(a[0]) + (Render(a[1..]) + Render(b)) == (ItemBytes(a[0]) + Render(a[1..])) + Render(b);
    }
  }

  lemma {:induction false} EraseAppend(a: seq<Item>, b: seq<Item>)
    ensures Erase(a + b) == Erase(a) + Erase(b)
  {
    hide RawByte;
    if a == [] {
      assert a + b == b;
    } else {
      assert (a + b)[1..] == a[1..] + b;
      EraseAppend(a[1..], b);
      assert RawByte(a[0]) + (Erase(a[1..]) + Erase(b)) == (RawByte(a[0]) + Erase(a[1..])) + Erase(b);
    }
  }

  lemma {:induction false} RenderRaw(bytes: seq<Byte>)
    ensures Render(RawItems(bytes)) == bytes && Erase(RawItems(bytes)) == bytes
  {
    if bytes != [] {
      RenderRaw(bytes[1..]);
      assert RawItems(bytes)[1..] == RawItems(bytes[1..]);
    }
  }

  lemma RenderAnchor(filepos: string)
    ensures Render([Anchor(filepos)]) == AnchorBytes(filepos) && Erase([Anchor(filepos)]) == []
  {
  }

  /** The loop that concatenates raw bytes and anchors. */
  method InsertAnchors(raw: seq<Byte>, list: seq<Reference>) returns (arr: seq<Byte>)
    requires InRange(raw, list)
    ensures arr == Render(Anchored(raw, list, 0))
  {
    hide AnchorBytes, Render, Erase, RawItems;
    RenderRaw(raw);
    assert raw[0..] == raw;
    arr := raw;
    if list != [] {
      arr := raw[..list[0].offset];
      RenderRaw(raw[0..list[0].offset]);
      AnchoredNext(raw, list, 0);
      assert raw[0..list[0].offset] == raw[..list[0].offset];
      for i := 0 to |list|
        invariant arr + Render(RestFrom(raw, list, i)) == Render(Anchored(raw, list, 0))
      {
        var end := if i + 1 < |list| then list[i + 1].offset else |raw|;
        RestNext(raw, list, i);
        arr := arr + AnchorBytes(list[i].filepos) + raw[list[i].offset..end];
      }
      assert Render(RestFrom(raw, list, |list|)) == [] by {
        RenderRaw([]);
        assert RestFrom(raw, list, |list|) == [];
        RenderEmpty();
      }
    }
  }

  lemma RenderEmpty()
    ensures Render([]) == []
  {
  }

  /** What follows the raw bytes before reference `i`. */
  function RestFrom(raw: seq<Byte>, list: seq<Reference>, i: nat): seq<Item>
    requires InRange(raw, list) && i <= |list|
  {
    if i == |list| then [] else [Anchor(list[i].filepos)] + Anchored(raw, list[i + 1..], list[i].offset)
  }

  lemma AnchoredNext(raw: seq<Byte>, list: seq<Reference>, from: nat)
    requires InRange(raw, list) && list != [] && from <= list[0].offset
    ensures Anchored(raw, list, from) == RawItems(raw[from..list[0].offset]) + RestFrom(raw, list, 0)
    ensures Render(Anchored(raw, list, from)) == raw[from..list[0].offset] + Render(RestFrom(raw, list, 0))
  {
    hide RawItems, Render;
    RenderRaw(raw[from..list[0].offset]);
    RenderAppend(RawItems(raw[from..list[0].offset]), RestFrom(raw, list, 0));
    assert Anchored(raw, list, from) == RawItems(raw[from..list[0].offset]) + RestFrom(raw, list, 0);
  }

  lemma RestNext(raw: seq<Byte>, list: seq<Reference>, i: nat)
    requires InRange(raw, list) && i < |list|
    ensures var end := if i + 1 < |list| then list[i + 1].offset else |raw|;
            list[i].offset <= end &&
            Render(RestFrom(raw, list, i)) == AnchorBytes(list[i].filepos) + raw[list[i].offset..end] + Render(RestFrom(raw, list, i + 1))
  {
    hide RawItems, Render, AnchorBytes, Anchored;
    var rest := Anchored(raw, list[i + 1..], list[i].offset);
    var end := if i + 1 < |list| then list[i + 1].offset else |raw|;
    RenderAnchor(list[i].filepos);
    RenderAppend([Anchor(list[i].filepos)], rest);
    RestTail(raw, list, i);
    var anchor, bytes, tail := AnchorBytes(list[i].filepos), raw[list[i].offset..end], Render(RestFrom(raw, list, i + 1));
    assert anchor + (bytes + tail) == anchor + bytes + tail;
  }

  lemma RestTail(raw: seq<Byte>, list: seq<Reference>, i: nat)
    requires InRange(raw, list) && i < |list|
    ensures var end := if i + 1 < |list| then list[i + 1].offset else |raw|;
            list[i].offset <= end &&
            Render(Anchored(raw, list[i + 1..], list[i].offset)) == raw[list[i].offset..end] + Render(RestFrom(raw, list, i + 1))
  {
    hide RawItems, Render;
    var rest := list[i + 1..];
    if i + 1 < |list| {
      AnchoredNext(raw, rest, list[i].offset);
      assert rest[1..] == list[i + 2..];
    } else {
      RenderRaw(raw[list[i].offset..]);
      RenderEmpty();
    }
  }

  lemma AnchoredCons(raw: seq<Byte>, list: seq<Reference>, from: nat)
    requires InRange(raw, list) && list != [] && from <= list[0].offset
    ensures var offset := list[0].offset;
            var before, rest := RawItems(raw[from..offset]), Anchored(raw, list[1..], offset);
            && Anchored(raw, list, from) == before + ([Anchor(list[0].filepos)] + rest)
            && |before| == offset - from
            && Erase(before) == raw[from..offset]
            && Erase([Anchor(list[0].filepos)] + rest) == Erase(rest)
            && Erase(before + ([Anchor(list[0].filepos)] + rest)) == raw[from..offset] + Erase(rest)
  {
    hide Render, RawItems, Erase, Anchored;
    var offset := list[0].offset;
    var rest := Anchored(raw, list[1..], offset);
    AnchoredUnfolds(raw, list, from);
    RawItemsLength(raw[from..offset]);
    RenderRaw(raw[from..offset]);
    RenderAnchor(list[0].filepos);
    EraseAppend([Anchor(list[0].filepos)], rest);
    EraseAppend(RawItems(raw[from..offset]), [Anchor(list[0].filepos)] + rest);
    assert [] + Erase(rest) == Erase(rest);
  }

  lemma AnchoredUnfolds(raw: seq<Byte>, list: seq<Reference>, from: nat)
    requires InRange(raw, list) && list != [] && from <= list[0].offset
    ensures var offset := list[0].offset;
            Anchored(raw, list, from) == RawItems(raw[from..offset]) + ([Anchor(list[0].filepos)] + Anchored(raw, list[1..], offset))
  {
    hide RawItems;
    var a, b, c := RawItems(raw[from..list[0].offset]), [Anchor(list[0].filepos)], Anchored(raw, list[1..], list[0].offset);
    assert a + b + c == a + (b + c);
  }

  /** Erasing the anchors gives the raw bytes back. */
  lemma {:induction false} AnchorsErase(raw: seq<Byte>, list: seq<Reference>, from: nat)
    requires InRange(raw, list) && from <= |raw| && (list != [] ==> from <= list[0].offset)
    ensures |Anchored(raw, list, from)| == |raw| - from + |list|
    ensures Erase(Anchored(raw, list, from)) == raw[from..]
    decreases |list|
  {
    hide Render, RawItems, Erase;
    if list == [] {
      RenderRaw(raw[from..]);
      RawItemsLength(raw[from..]);
    } else {
      AnchoredCons(raw, list, from);
      AnchorsErase(raw, list[1..], list[0].offset);
      assert raw[from..list[0].offset] + raw[list[0].offset..] == raw[from..];
    }
  }

  /** Anchor `k` stands after the raw bytes before its offset and the `k` anchors before it, and before the raw byte at
      its offset. */
  lemma {:induction false} AnchorLands(raw: seq<Byte>, list: seq<Reference>, from: nat, k: nat)
    requires InRange(raw, list) && k < |list| && from <= list[0].offset
    ensures var items := Anchored(raw, list, from);
            var at := list[k].offset - from + k;
            && 0 <= at < |items|
            && items[at] == Anchor(list[k].filepos)
            && Erase(items[..at]) == raw[from..list[k].offset]
            && Erase(items[at..]) == raw[list[k].offset..]
    decreases |list|
  {
    hide Render, RawItems, Erase, Anchored;
    var offset := list[0].offset;
    var before, rest := RawItems(raw[from..offset]), Anchored(raw, list[1..], offset);
    var anchor := [Anchor(list[0].filepos)];
    var items := Anchored(raw, list, from);
    AnchoredCons(raw, list, from);
    AnchorsErase(raw, list[1..], offset);
    if k == 0 {
      assert items[..|before|] == before && items[|before|..] == anchor + rest;
    } else {
      AnchorLands(raw, list[1..], offset, k - 1);
      var at' := list[k].offset - offset + k - 1;
      SplitAfter(before, anchor, rest, at');
      EraseAfter(before, list[0].filepos, rest[..at']);
      assert raw[from..offset] + raw[offset..list[k].offset] == raw[from..list[k].offset];
    }
  }

  lemma EraseAfter(before: seq<Item>, filepos: string, rest: seq<Item>)
    ensures Erase(before + ([Anchor(filepos)] + rest)) == Erase(before) + Erase(rest)
  {
    hide Erase, Render;
    RenderAnchor(filepos);
    EraseAppend([Anchor(filepos)], rest);
    EraseAppend(before, [Anchor(filepos)] + rest);
  }

  lemma RawItemsLength(bytes: seq<Byte>)
    ensures |RawItems(bytes)| == |bytes|
  {
  }

  lemma SplitAfter(before: seq<Item>, anchor: seq<Item>, rest: seq<Item>, at: nat)
    requires |anchor| == 1 && at < |rest|
    ensures var items := before + (anchor + rest); var k := |before| + 1 + at;
            items[k] == rest[at] && items[..k] == before + (anchor + rest[..at]) && items[k..] == rest[at..]
  {
  }

  // ----- Links

  /** The references of the whole book: distinct digit strings, sorted by the number they denote. */
  predicate IsFileposList(list: seq<string>) {
    && (forall i, j :: 0 <= i < j < |list| ==> list[i] != list[j])
    && (forall i, j :: 0 <= i < j < |list| ==> Decimal.Value(list[i]) <= Decimal.Value(list[j]))
  }

  /** Sorting is stable: a reference goes after those that denote the same number. */
  function Insert(list: seq<string>, filepos: string): (sorted: seq<string>)
    ensures forall f :: f in sorted <==> f in list || f == filepos
  {
    if list == [] || Decimal.Value(filepos) < Decimal.Value(list[0]) then [filepos] + list
    else [list[0]] + Insert(list[1..], filepos)
  }

  /** The list made of all matches: each digit string once, by number. */
  function FileposList(matches: seq<string>): (list: seq<string>)
    ensures forall f :: f in list <==> f in matches
  {
    if matches == [] then [] else
    var k := |matches| - 1;
    var before := FileposList(matches[..k]);
    assert matches == matches[..k] + [matches[k]];
    if matches[k] in matches[..k] then before else Insert(before, matches[k])
  }

  lemma {:induction false} InsertKeepsList(list: seq<string>, filepos: string)
    requires IsFileposList(list) && filepos !in list
    ensures IsFileposList(Insert(list, filepos))
    decreases list
  {
    hide Decimal.Value;
    if list != [] && Decimal.Value(filepos) >= Decimal.Value(list[0]) {
      InsertKeepsList(list[1..], filepos);
      var rest := Insert(list[1..], filepos);
      forall f <- rest
        ensures f != list[0] && Decimal.Value(list[0]) <= Decimal.Value(f)
      {
        if f != filepos {
          var j :| 0 <= j < |list[1..]| && list[1..][j] == f;
          assert list[j + 1] == f;
        }
      }
      ConsIsList(list[0], rest);
    }
  }

  lemma ConsIsList(first: string, rest: seq<string>)
    requires IsFileposList(rest) && forall f <- rest :: f != first && Decimal.Value(first) <= Decimal.Value(f)
    ensures IsFileposList([first] + rest)
  {
    hide Decimal.Value;
    forall k | 0 <= k < |rest|
      ensures rest[k] != first && Decimal.Value(first) <= Decimal.Value(rest[k])
    {
      assert rest[k] in rest;
    }
  }

  lemma {:induction false} FileposListIsSorted(matches: seq<string>)
    ensures IsFileposList(FileposList(matches))
  {
    hide IsFileposList;
    if matches == [] {
      EmptyFileposList();
    } else {
      var k := |matches| - 1;
      FileposListIsSorted(matches[..k]);
      if matches[k] !in matches[..k] {
        InsertKeepsList(FileposList(matches[..k]), matches[k]);
      }
    }
  }

  lemma EmptyFileposList()
    ensures IsFileposList([])
  {
  }

  /** The references inside a section, relative to its start. */
  function ReferencesIn(list: seq<string>, section: Section): (refs: seq<Reference>)
    ensures forall k :: 0 <= k < |refs| ==>
              && refs[k].filepos in list
              && section.start + refs[k].offset == Decimal.Value(refs[k].filepos) < section.end
  {
    if list == [] then [] else
    var rest := ReferencesIn(list[1..], section);
    var number := Decimal.Value(list[0]);
    if section.start <= number < section.end then [Reference(list[0], number - section.start)] + rest else rest
  }

  lemma {:induction false} ReferencesInRange(list: seq<string>, section: Section)
    requires IsFileposList(list) && section.end == section.start + |section.raw|
    ensures InRange(section.raw, ReferencesIn(list, section))
    decreases |list|
  {
    hide Decimal.Value;
    if list != [] {
      ReferencesInRange(list[1..], section);
      var rest := ReferencesIn(list[1..], section);
      forall k | 0 <= k < |rest|
        ensures Decimal.Value(list[0]) <= Decimal.Value(rest[k].filepos)
      {
        var j :| 0 <= j < |list[1..]| && list[1..][j] == rest[k].filepos;
        assert list[j + 1] == rest[k].filepos;
      }
    }
  }

  lemma {:induction false} ReferenceIsKept(list: seq<string>, section: Section, filepos: string) returns (k: nat)
    requires filepos in list && section.start <= Decimal.Value(filepos) < section.end
    ensures k < |ReferencesIn(list, section)|
    ensures ReferencesIn(list, section)[k] == Reference(filepos, Decimal.Value(filepos) - section.start)
    decreases |list|
  {
    hide Decimal.Value;
    if list[0] == filepos {
      k := 0;
    } else {
      k := ReferenceIsKept(list[1..], section, filepos);
      var number := Decimal.Value(list[0]);
      if section.start <= number < section.end {
        k := k + 1;
      }
    }
  }

  /** The bytes before an anchor, the anchor's own, and the bytes after it. */
  lemma AnchorInBytes(items: seq<Item>, at: nat, filepos: string)
    requires at < |items| && items[at] == Anchor(filepos)
    ensures Render(items) == Render(items[..at]) + AnchorBytes(filepos) + Render(items[at + 1..])
  {
    hide Render, AnchorBytes;
    var a, b, c := items[..at], [Anchor(filepos)], items[at + 1..];
    SplitAround(items, at);
    RenderAppend(a + b, c);
    RenderAppend(a, b);
    RenderAnchor(filepos);
  }

  lemma SplitAround(items: seq<Item>, at: nat)
    requires at < |items|
    ensures items[..at] + [items[at]] + items[at + 1..] == items
  {
  }

  /** In the section that holds byte `n`, the anchor of a reference to it stands directly before it. */
  lemma AnchorInSection(section: Section, list: seq<string>, filepos: string) returns (at: nat)
    requires IsFileposList(list) && filepos in list && section.end == section.start + |section.raw|
    requires section.start <= Decimal.Value(filepos) < section.end
    ensures InRange(section.raw, ReferencesIn(list, section))
    ensures var items, n := Anchored(section.raw, ReferencesIn(list, section), 0), Decimal.Value(filepos) - section.start;
            && Erase(items) == section.raw
            && at < |items| && items[at] == Anchor(filepos)
            && Erase(items[..at]) == section.raw[..n]
            && Erase(items[at..]) == section.raw[n..]
            && Render(items) == Render(items[..at]) + AnchorBytes(filepos) + Render(items[at + 1..])
  {
    hide Decimal.Value, Anchored, Erase, Render, AnchorBytes, IsFileposList, InRange, ReferencesIn;
    ReferencesInRange(list, section);
    var refs := ReferencesIn(list, section);
    var k := ReferenceIsKept(list, section, filepos);
    at := AnchorAt(section.raw, refs, k);
    AnchorInBytes(Anchored(section.raw, refs, 0), at, filepos);
  }

  lemma AnchorAt(raw: seq<Byte>, refs: seq<Reference>, k: nat) returns (at: nat)
    requires InRange(raw, refs) && k < |refs|
    ensures refs[k].offset <= |raw|
    ensures var items := Anchored(raw, refs, 0);
            && Erase(items) == raw
            && at < |items| && items[at] == Anchor(refs[k].filepos)
            && Erase(items[..at]) == raw[..refs[k].offset]
            && Erase(items[at..]) == raw[refs[k].offset..]
  {
    hide Anchored, Erase;
    AnchorsErase(raw, refs, 0);
    AnchorLands(raw, refs, 0, k);
    at := refs[k].offset + k;
    assert raw[0..] == raw;
  }

  /** A link to a referenced byte of the text resolves to the one section that contains it, and in that section's
      anchored text its anchor stands directly before the byte, apart from other anchors at the same place. */
  lemma LinkLands(text: seq<Byte>, breaks: seq<nat>, matches: seq<string>, filepos: string) returns (at: nat)
    requires AreBreaks(text, breaks) && filepos in matches && Decimal.Value(filepos) < |text|
    ensures var n, sections := Decimal.Value(filepos), Sections(text, breaks);
            var index := FindSection(sections, n);
            && index >= 0
            && sections[index].start <= n < sections[index].end <= |text|
            && (forall i :: 0 <= i < |sections| ==> (sections[i].start <= n < sections[i].end <==> i == index))
            && var section, refs := sections[index], ReferencesIn(FileposList(matches), sections[index]);
               && InRange(section.raw, refs)
               && var items := Anchored(section.raw, refs, 0);
                  && Erase(items) == text[section.start..section.end]
                  && at < |items| && items[at] == Anchor(filepos)
                  && Erase(items[..at]) == text[section.start..n]
                  && Erase(items[at..]) == text[n..section.end]
                  && Render(items) == Render(items[..at]) + AnchorBytes(filepos) + Render(items[at + 1..])
  {
    hide Decimal.Value, Sections, Anchored, Erase, Render, AnchorBytes;
    hide IsFileposList, InRange, ReferencesIn, FileposList, FindSection;
    var n, sections := Decimal.Value(filepos), Sections(text, breaks);
    SectionsTile(text, breaks);
    FoundSectionContains(text, sections, 0, n);
    var section := sections[FindSection(sections, n)];
    FileposListIsSorted(matches);
    at := AnchorInSection(section, FileposList(matches), filepos);
    SliceOfSlice(text, section.start, section.end, section.start, n);
    SliceOfSlice(text, section.start, section.end, n, section.end);
    assert text[section.start..section.end][n - section.start..] == text[n..section.end];
  }
}
