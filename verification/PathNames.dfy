/** What resolved paths consist of: which segments there are, and what each one becomes when it is too long. */
module PathNames {
  import opened Utf16
  import opened Utf8
  import opened PathSegments

  // ----- A segment that is too long

  /** The units at the end of a segment that are its extension, whatever their case. */
  function Kept(lower: Lowering, segment: Text, suffix: Text): nat {
    if suffix != [] && EndsWith(lower(segment), lower(suffix)) then if |suffix| <= |segment| then |suffix| else |segment| else 0
  }

  /** A segment that fits is left alone. Of another, the longest beginning is kept that leaves room for a tilde, eight
      characters of hash and the extension; and if nothing would be left, the longest beginning of the segment itself. */
  lemma LimitedSegmentIs(lower: Lowering, segment: Text, suffix: Text)
    ensures var r, k := TruncatePathSegment(lower, segment, suffix), Kept(lower, segment, suffix);
            var stem, ending := segment[..|segment| - k], segment[|segment| - k..];
            if |Utf8Bytes(segment)| <= 255 then r == segment
            else if 9 + |Utf8Bytes(ending)| >= 255 then IsLongestPrefix(r, segment, 255)
            else
              && |r| >= 9 + |ending|
              && IsLongestPrefix(r[..|r| - 9 - |ending|], stem, 246 - |Utf8Bytes(ending)|)
              && r[|r| - 9 - |ending|..] == [126] + HashText(segment) + ending
  {
    hide Utf8Length, Utf8Bytes, HashText, Truncated, EndsWith, IsLongestPrefix;
    Utf8LengthCountsBytes(segment);
    EmptyHasNoBytes();
    var k := Kept(lower, segment, suffix);
    var stem, ending := segment[..|segment| - k], segment[|segment| - k..];
    PreservedIs(lower, segment, suffix);
    Utf8LengthCountsBytes(ending);
    TruncationText(segment);
    HashTextShape(segment);
    TruncationIsLongest(segment, 255);
    if 9 + |Utf8Bytes(ending)| < 255 {
      TruncationIsLongest(stem, 246 - |Utf8Bytes(ending)|);
      Pieces(Truncated(stem, 246 - |Utf8Bytes(ending)|), [126] + HashText(segment), ending);
    }
  }

  lemma EmptyHasNoBytes()
    ensures Utf8Bytes([]) == []
  {
  }

  lemma PreservedIs(lower: Lowering, segment: Text, suffix: Text)
    ensures var k := Kept(lower, segment, suffix);
            && PreservedSuffix(lower, segment, suffix) == segment[|segment| - k..]
            && |PreservedSuffix(lower, segment, suffix)| == k
  {
    hide EndsWith;
  }

  lemma Pieces(a: Text, b: Text, c: Text)
    ensures var r := a + b + c; r[..|r| - |b| - |c|] == a && r[|r| - |b| - |c|..] == b + c
  {
  }

  // ----- The hash

  predicate ArePoints(points: seq<nat>) {
    forall k :: 0 <= k < |points| ==> points[k] < 0x110000
  }

  /** Code points mixed in one after the other, the last one last. */
  function MixAll(hash: bv32, points: seq<nat>): bv32
    requires ArePoints(points)
  {
    if points == [] then hash else Mix(MixAll(hash, points[..|points| - 1]), points[|points| - 1])
  }

  lemma {:induction false} FirstIsMixed(hash: bv32, first: nat, rest: seq<nat>)
    requires first < 0x110000 && ArePoints(rest)
    ensures ArePoints([first] + rest) && MixAll(hash, [first] + rest) == MixAll(Mix(hash, first), rest)
    decreases |rest|
  {
    hide Mix;
    var points := [first] + rest;
    if rest == [] {
      assert points[..0] == [] && MixAll(hash, []) == hash;
    } else {
      FirstIsMixed(hash, first, rest[..|rest| - 1]);
      assert points[..|points| - 1] == [first] + rest[..|rest| - 1];
    }
  }

  /** The hash is over whole code points, in order. */
  lemma {:induction false} HashOfPoints(hash: bv32, s: Text)
    ensures ArePoints(Points(s)) && HashFrom(hash, s) == MixAll(hash, Points(s))
    decreases |s|
  {
    hide Mix, CodePoint, PointSize;
    if s != [] {
      PointIsInRange(s);
      var rest := s[PointSize(s)..];
      HashOfPoints(Mix(hash, CodePoint(s)), rest);
      FirstIsMixed(hash, CodePoint(s), Points(rest));
    }
  }

  /** The hashes of nothing, of one letter and of one emoji, as FNV-1a has them with code points for bytes. */
  lemma KnownHashes()
    ensures HashFrom(0x811C9DC5, []) == 0x811C9DC5
    ensures HashFrom(0x811C9DC5, [97]) == 0xE40C292C
    ensures HashFrom(0x811C9DC5, [0xD83D, 0xDE00]) == 0x0650A71F
  {
    hide Mix, HashFrom;
    OnePoint(0x811C9DC5, [97], 97);
    OnePoint(0x811C9DC5, [0xD83D, 0xDE00], 0x1F600);
    LetterMixed();
    EmojiMixed();
  }

  lemma OnePoint(hash: bv32, s: Text, point: nat)
    requires s != [] && PointSize(s) == |s| && CodePoint(s) == point < 0x110000
    ensures HashFrom(hash, s) == Mix(hash, point) && HashFrom(hash, []) == hash
  {
    hide Mix;
    assert s[PointSize(s)..] == [];
    assert HashFrom(hash, s) == HashFrom(Mix(hash, point), []);
  }

  lemma LetterMixed()
    ensures Mix(0x811C9DC5, 97) == 0xE40C292C
  {
  }

  lemma EmojiMixed()
    ensures Mix(0x811C9DC5, 0x1F600) == 0x0650A71F
  {
    var point: bv32 := 0x1F600;
    assert 0x1F600 as bv32 == point;
    var mixed: bv32 := 0x811D6BC5;
    assert 0x811C9DC5 ^ point == mixed;
  }

  /** A text of hexadecimal digits, read as a number. */
  function HexValue(s: Text): nat {
    if s == [] then 0 else
    var u := s[|s| - 1];
    16 * HexValue(s[..|s| - 1]) + if 48 <= u <= 57 then u - 48 else if 97 <= u <= 102 then u - 87 else 0
  }

  lemma {:induction false} HexTextValue(n: nat)
    ensures HexValue(HexText(n)) == n
  {
    if n >= 16 {
      HexTextValue(n / 16);
      assert HexText(n)[..|HexText(n)| - 1] == HexText(n / 16);
    } else {
      assert HexText(n)[..0] == [];
    }
  }

  lemma {:induction false} ZeroFirst(s: Text)
    ensures HexValue([48] + s) == HexValue(s)
    decreases |s|
  {
    if s != [] {
      ZeroFirst(s[..|s| - 1]);
      assert ([48] + s)[..|s|] == [48] + s[..|s| - 1];
    } else {
      assert ([48] + s)[..0] == [];
    }
  }

  lemma {:induction false} PaddedValue(s: Text, length: nat)
    ensures HexValue(PadStart(s, length, 48)) == HexValue(s)
    decreases length - |s|
  {
    if |s| < length {
      ZeroFirst(s);
      PaddedValue([48] + s, length);
    }
  }

  /** The text of a hash is the hash in hexadecimal, so that different hashes have different texts. */
  lemma HashTextValue(s: Text)
    ensures HexValue(HashText(s)) == HashFrom(0x811C9DC5, s) as nat
  {
    hide HashFrom, HexText, HexValue, PadStart;
    var n := HashFrom(0x811C9DC5, s) as nat;
    HexTextValue(n);
    PaddedValue(HexText(n), 8);
  }

  // ----- The segments of a path

  lemma {:induction false} SplitAfterFolder(folder: Text, name: Text)
    requires EndsWith(folder, [SLASH])
    ensures var segments := Split(folder);
            |segments| > 1 && segments[|segments| - 1] == [] && Split(folder + name) == segments[..|segments| - 1] + Split(name)
    decreases |folder|
  {
    hide EndsWith;
    FolderEnds(folder);
    var rest := folder[1..];
    assert (folder + name)[1..] == rest + name;
    if rest == [] {
      assert folder == [SLASH] && Split(rest) == [[]] && rest + name == name;
    } else {
      SplitAfterFolder(rest, name);
      SegmentsMatch(folder, name);
    }
  }

  lemma FolderEnds(folder: Text)
    requires EndsWith(folder, [SLASH])
    ensures folder != [] && folder[|folder| - 1] == SLASH && (|folder| > 1 ==> EndsWith(folder[1..], [SLASH]))
  {
    assert folder[|folder| - 1] == folder[|folder| - 1..][0];
    assert |folder| > 1 ==> folder[1..][|folder| - 2..] == folder[|folder| - 1..];
  }

  /** Segments with one more unit in front. */
  function Grown(u: Unit, segments: seq<Text>): seq<Text>
    requires segments != []
  {
    if u == SLASH then [[]] + segments else [[u] + segments[0]] + segments[1..]
  }

  lemma GrownAppend(u: Unit, a: seq<Text>, b: seq<Text>)
    requires a != []
    ensures Grown(u, a + b) == Grown(u, a) + b
  {
  }

  lemma SplitGrows(u: Unit, rest: Text)
    ensures Split([u] + rest) == Grown(u, Split(rest))
  {
    assert ([u] + rest)[1..] == rest;
  }

  lemma SegmentsMatch(folder: Text, name: Text)
    requires |folder| > 1
    requires var segments := Split(folder[1..]);
             |segments| > 1 && segments[|segments| - 1] == [] && Split(folder[1..] + name) == segments[..|segments| - 1] + Split(name)
    ensures var segments := Split(folder);
            |segments| > 1 && segments[|segments| - 1] == [] && Split(folder + name) == segments[..|segments| - 1] + Split(name)
  {
    hide Split, Grown;
    var u, segments := folder[0], Split(folder[1..]);
    var before := segments[..|segments| - 1];
    assert folder == [u] + folder[1..] && folder + name == [u] + (folder[1..] + name);
    SplitGrows(u, folder[1..]);
    SplitGrows(u, folder[1..] + name);
    assert segments == before + [[]];
    GrownAppend(u, before, [[]]);
    GrownAppend(u, before, Split(name));
    GrownIsNotEmpty(u, before);
    assert (Grown(u, before) + [[]])[..|Grown(u, before)|] == Grown(u, before);
  }

  lemma GrownIsNotEmpty(u: Unit, segments: seq<Text>)
    requires segments != []
    ensures Grown(u, segments) != []
  {
  }

  function Named(lower: Lowering, name: Text, dotExt: Text): Text {
    if dotExt == [] || EndsWith(lower(name), lower(dotExt)) then name else name + dotExt
  }

  /** Before they are limited, the segments of a path are those that were resolved: with the file name after a folder, and the
      extension after the last one if it lacks it. */
  lemma FullPathSegments(lower: Lowering, resolved: Text, filename: Text, dotExt: Text)
    requires NoSlash(dotExt)
    ensures var segments, full := Split(resolved), Split(FullPath(lower, resolved, filename, dotExt));
            var last := |segments| - 1;
            full == if EndsWith(resolved, [SLASH]) then segments[..last] + Split(Named(lower, filename, dotExt))
                    else segments[..last] + [Named(lower, segments[last], dotExt)]
  {
    hide Split, JoinSegments, EndsWith;
    var segments := Split(resolved);
    var last := |segments| - 1;
    if EndsWith(resolved, [SLASH]) {
      SplitAfterFolder(resolved, Named(lower, filename, dotExt));
    } else {
      SplitSegmentsAreSlashFree(resolved);
      var named := segments[last := Named(lower, segments[last], dotExt)];
      assert named == segments[..last] + [Named(lower, segments[last], dotExt)];
      SplitInvertsJoin(named);
    }
  }

  /** The segments of the resolved path: those, each limited, the last one with its extension. */
  lemma ResolvedPathSegments(lower: Lowering, resolved: Text, filename: Text, dotExt: Text)
    requires resolved != []
    ensures var r, full := ResolveUploadPath(lower, resolved, filename, dotExt), Split(FullPath(lower, resolved, filename, dotExt));
            && r.Some?
            && |Split(r.value)| == |full|
            && forall k :: 0 <= k < |full| ==>
                 Split(r.value)[k] == TruncatePathSegment(lower, full[k], if k == |full| - 1 then dotExt else [])
  {
    hide Split, TruncatePathSegment, FullPath, LimitPathSegmentBytes;
    LimitedSegments(lower, FullPath(lower, resolved, filename, dotExt), dotExt);
  }
}
