/** The last stage of resolving an upload path: every segment is cut to what file systems accept, on code point
    boundaries, with a hash of what was cut off, and without losing the file extension. */
module PathSegments {
  import opened Wrappers
  import opened Utf16
  import opened Utf8

  const MAX_PATH_SEGMENT_BYTES := 255
  const SLASH: Unit := 47
  const TILDE: Unit := 126

  // ----- UTF-8 lengths

  function PointBytes(codePoint: nat): (n: nat)
    ensures 1 <= n <= 4
  {
    if codePoint <= 0x7F then 1 else if codePoint <= 0x7FF then 2 else if codePoint <= 0xFFFF then 3 else 4
  }

  function Utf8Length(s: Text): nat {
    if s == [] then 0 else PointBytes(CodePoint(s)) + Utf8Length(s[PointSize(s)..])
  }

  /** The length that is counted is that of the encoding. */
  lemma {:induction false} Utf8LengthCountsBytes(s: Text)
    ensures |Utf8Bytes(s)| == Utf8Length(s)
    decreases |s|
  {
    hide CodePoint;
    if s != [] {
      PointIsInRange(s);
      Utf8LengthCountsBytes(s[PointSize(s)..]);
    }
  }

  method Utf8ByteLength(value: Text) returns (bytes: nat)
    ensures bytes == Utf8Length(value) == |Utf8Bytes(value)|
  {
    Utf8LengthCountsBytes(value);
    bytes := 0;
    var rest := value;
    while rest != []
      invariant bytes + Utf8Length(rest) == Utf8Length(value)
      decreases |rest|
    {
      var codePoint := CodePoint(rest);
      if codePoint <= 0x7F {
        bytes := bytes + 1;
      } else if codePoint <= 0x7FF {
        bytes := bytes + 2;
      } else if codePoint <= 0xFFFF {
        bytes := bytes + 3;
      } else {
        bytes := bytes + 4;
      }
      rest := rest[PointSize(rest)..];
    }
  }

  /** Two halves of a surrogate pair may meet, so joining never adds bytes. */
  lemma {:induction false} JoiningAddsNoBytes(a: Text, b: Text)
    ensures Utf8Length(a + b) <= Utf8Length(a) + Utf8Length(b)
    decreases |a|
  {
    if a == [] {
      assert a + b == b;
    } else if |a| == 1 && b != [] && IsHigh(a[0]) && IsLow(b[0]) {
      assert (a + b)[2..] == b[1..];
      assert a[1..] == [];
    } else {
      var n := PointSize(a);
      assert PointSize(a + b) == n;
      assert (a + b)[n..] == a[n..] + b;
      JoiningAddsNoBytes(a[n..], b);
    }
  }

  lemma {:induction false} AsciiLength(s: Text)
    requires forall k :: 0 <= k < |s| ==> s[k] <= 0x7F
    ensures Utf8Length(s) == |s|
  {
    if s != [] {
      AsciiLength(s[1..]);
    }
  }

  // ----- Truncation

  function Truncated(s: Text, maxBytes: nat): Text
    decreases |s|
  {
    if s == [] || PointBytes(CodePoint(s)) > maxBytes then []
    else s[..PointSize(s)] + Truncated(s[PointSize(s)..], maxBytes - PointBytes(CodePoint(s)))
  }

  lemma Regroup(a: Text, b: Text, c: Text)
    ensures a + (b + c) == a + b + c
  {
  }

  method TruncateUtf8(value: Text, maxBytes: nat) returns (result: Text)
    ensures result == Truncated(value, maxBytes)
  {
    var bytes := 0;
    result := [];
    var rest := value;
    while rest != []
      invariant bytes <= maxBytes
      invariant result + Truncated(rest, maxBytes - bytes) == Truncated(value, maxBytes)
      decreases |rest|
    {
      var charBytes := PointBytes(CodePoint(rest));
      if bytes + charBytes > maxBytes {
        break;
      }
      var char' := rest[..PointSize(rest)];
      Regroup(result, char', Truncated(rest[PointSize(rest)..], maxBytes - bytes - charBytes));
      result := result + char';
      rest := rest[PointSize(rest)..];
      bytes := bytes + charBytes;
    }
  }

  /** Whether the first `m` units are whole code points. */
  predicate IsBoundary(s: Text, m: nat)
    decreases |s|
  {
    m == 0 || (s != [] && PointSize(s) <= m && IsBoundary(s[PointSize(s)..], m - PointSize(s)))
  }

  lemma PrefixLength(s: Text, m: nat)
    requires m > 0 && IsBoundary(s, m) && m <= |s|
    ensures var n := PointSize(s);
            Utf8Length(s[..m]) == PointBytes(CodePoint(s)) + Utf8Length(s[n..][..m - n])
  {
    var n := PointSize(s);
    assert s[..m][n..] == s[n..][..m - n];
    assert PointSize(s[..m]) == n && CodePoint(s[..m]) == CodePoint(s);
  }

  lemma {:induction false} TruncationFits(s: Text, maxBytes: nat)
    ensures var t := Truncated(s, maxBytes); t <= s && IsBoundary(s, |t|) && Utf8Length(t) <= maxBytes
    decreases |s|
  {
    hide CodePoint, PointBytes, Utf8Length;
    NothingFits();
    if s != [] && PointBytes(CodePoint(s)) <= maxBytes {
      var n, t := PointSize(s), Truncated(s, maxBytes);
      var rest := Truncated(s[n..], maxBytes - PointBytes(CodePoint(s)));
      TruncationFits(s[n..], maxBytes - PointBytes(CodePoint(s)));
      PrefixGrows(s, n, rest);
      PrefixLength(s, |t|);
    }
  }

  lemma NothingFits()
    ensures Utf8Length([]) == 0
  {
  }

  lemma PrefixGrows(s: Text, n: nat, rest: Text)
    requires n <= |s| && rest <= s[n..]
    ensures s[..n] + rest == s[..n + |rest|] && s[n..][..|rest|] == rest
  {
  }

  lemma {:induction false} NothingLongerFits(s: Text, maxBytes: nat, m: nat)
    requires IsBoundary(s, m) && m <= |s| && Utf8Length(s[..m]) <= maxBytes
    ensures m <= |Truncated(s, maxBytes)|
    decreases |s|
  {
    hide CodePoint, PointBytes;
    if m > 0 {
      PrefixLength(s, m);
      var n := PointSize(s);
      NothingLongerFits(s[n..], maxBytes - PointBytes(CodePoint(s)), m - n);
    }
  }

  /** Whether a text can be cut at a place without parting a surrogate pair. */
  predicate IsBreak(s: Text, m: nat) {
    m <= |s| && !(0 < m < |s| && IsHigh(s[m - 1]) && IsLow(s[m]))
  }

  lemma {:induction false} BoundariesAreBreaks(s: Text, m: nat)
    requires m <= |s|
    ensures IsBoundary(s, m) <==> IsBreak(s, m)
    decreases |s|
  {
    if m > 0 {
      var n := PointSize(s);
      if n <= m {
        BoundariesAreBreaks(s[n..], m - n);
      }
    }
  }

  /** The longest beginning of whole code points that is no longer than a number of bytes in UTF-8. */
  ghost predicate IsLongestPrefix(t: Text, s: Text, maxBytes: nat) {
    && t <= s && IsBreak(s, |t|) && |Utf8Bytes(t)| <= maxBytes
    && forall m :: 0 <= m <= |s| && IsBreak(s, m) && |Utf8Bytes(s[..m])| <= maxBytes ==> m <= |t|
  }

  /** Truncation keeps the longest prefix of whole code points that fits. */
  lemma TruncationIsLongest(s: Text, maxBytes: nat)
    ensures IsLongestPrefix(Truncated(s, maxBytes), s, maxBytes)
  {
    hide Truncated, IsBoundary, IsBreak, Utf8Length, Utf8Bytes;
    var t := Truncated(s, maxBytes);
    TruncationFits(s, maxBytes);
    BoundariesAreBreaks(s, |t|);
    Utf8LengthCountsBytes(t);
    forall m | 0 <= m <= |s| && IsBreak(s, m) && |Utf8Bytes(s[..m])| <= maxBytes
      ensures m <= |t|
    {
      BoundariesAreBreaks(s, m);
      Utf8LengthCountsBytes(s[..m]);
      NothingLongerFits(s, maxBytes, m);
    }
  }

  // ----- The hash of a segment

  /** A code point is mixed into the low bits, and the product with the prime is cut to 32 bits. */
  function Mix(hash: bv32, codePoint: nat): bv32
    requires codePoint < 0x110000
  {
    (hash ^ (codePoint as bv32)) * 0x01000193
  }

  function HashFrom(hash: bv32, s: Text): bv32
    decreases |s|
  {
    if s == [] then hash else
    PointIsInRange(s);
    HashFrom(Mix(hash, CodePoint(s)), s[PointSize(s)..])
  }

  function HexDigit(d: nat): Unit
    requires d < 16
  {
    if d < 10 then 48 + d else 87 + d
  }

  function HexText(n: nat): (s: Text)
    ensures s != [] && forall k :: 0 <= k < |s| ==> 48 <= s[k] <= 102
  {
    if n < 16 then [HexDigit(n)] else HexText(n / 16) + [HexDigit(n % 16)]
  }

  function Pow16(k: nat): nat {
    if k == 0 then 1 else 16 * Pow16(k - 1)
  }

  lemma {:induction false} HexTextLength(n: nat, k: nat)
    requires k > 0 && n < Pow16(k)
    ensures |HexText(n)| <= k
    decreases k
  {
    if n >= 16 {
      assert k > 1 by {
        assert Pow16(1) == 16 * Pow16(0) == 16;
      }
      assert n / 16 < Pow16(k - 1);
      HexTextLength(n / 16, k - 1);
    }
  }

  function PadStart(s: Text, length: nat, fill: Unit): (r: Text)
    ensures |r| == if |s| < length then length else |s|
    decreases length - |s|
  {
    if |s| < length then PadStart([fill] + s, length, fill) else s
  }

  lemma {:induction false} PadStartKeepsHex(s: Text, length: nat)
    requires forall k :: 0 <= k < |s| ==> 48 <= s[k] <= 102
    ensures forall k :: 0 <= k < |PadStart(s, length, 48)| ==> 48 <= PadStart(s, length, 48)[k] <= 102
    decreases length - |s|
  {
    if |s| < length {
      PadStartKeepsHex([48] + s, length);
    }
  }

  function HashText(s: Text): Text {
    PadStart(HexText(HashFrom(0x811C9DC5, s) as nat), 8, 48)
  }

  method HashSegment(value: Text) returns (text: Text)
    ensures text == HashText(value)
  {
    var hash: bv32 := 0x811C9DC5;
    var rest := value;
    while rest != []
      invariant HashFrom(hash, rest) == HashFrom(0x811C9DC5, value)
      decreases |rest|
    {
      PointIsInRange(rest);
      hash := (hash ^ (CodePoint(rest) as bv32)) * 0x01000193;
      rest := rest[PointSize(rest)..];
    }
    text := PadStart(HexText(hash as nat), 8, 48);
  }

  /** Always eight ASCII characters. */
  lemma HashTextShape(s: Text)
    ensures |HashText(s)| == 8 && Utf8Length(HashText(s)) == |Utf8Bytes(HashText(s))| == 8
    ensures forall k :: 0 <= k < |HashText(s)| ==> 48 <= HashText(s)[k] <= 102
  {
    var n := HashFrom(0x811C9DC5, s) as nat;
    hide HashFrom, HexText, PadStart;
    SixteenToTheEighth();
    HexTextLength(n, 8);
    PadStartKeepsHex(HexText(n), 8);
    AsciiLength(HashText(s));
    Utf8LengthCountsBytes(HashText(s));
  }

  lemma SixteenToTheEighth()
    ensures Pow16(8) == 0x1_0000_0000
  {
  }

  // ----- One segment

  type Lowering = Text -> Text

  predicate EndsWith(s: Text, suffix: Text) {
    |suffix| <= |s| && s[|s| - |suffix|..] == suffix
  }

  function LastUnits(s: Text, n: nat): Text {
    if n <= |s| then s[|s| - n..] else s
  }

  /** The part of a segment that is kept as it is. */
  function PreservedSuffix(lower: Lowering, segment: Text, suffix: Text): Text {
    if suffix != [] && EndsWith(lower(segment), lower(suffix)) then LastUnits(segment, |suffix|) else []
  }

  function TruncatePathSegment(lower: Lowering, segment: Text, suffix: Text): Text {
    if segment == [] || Utf8Length(segment) <= MAX_PATH_SEGMENT_BYTES then segment else
    var preserved := PreservedSuffix(lower, segment, suffix);
    var stem := segment[..|segment| - |preserved|];
    var truncation := [TILDE] + HashText(segment);
    var suffixBytes := Utf8Length(truncation) + Utf8Length(preserved);
    if suffixBytes >= MAX_PATH_SEGMENT_BYTES then Truncated(segment, MAX_PATH_SEGMENT_BYTES)
    else Truncated(stem, MAX_PATH_SEGMENT_BYTES - suffixBytes) + truncation + preserved
  }

  predicate NoSlash(s: Text) {
    SLASH !in s
  }

  lemma TruncationText(segment: Text)
    ensures Utf8Length([TILDE] + HashText(segment)) == 9 && NoSlash([TILDE] + HashText(segment))
  {
    hide HashText, Utf8Length;
    HashTextShape(segment);
    AsciiLength([TILDE] + HashText(segment));
  }

  /** A truncated segment fits, and is still one segment. */
  lemma SegmentFits(lower: Lowering, segment: Text, suffix: Text)
    ensures |Utf8Bytes(TruncatePathSegment(lower, segment, suffix))| <= MAX_PATH_SEGMENT_BYTES
    ensures NoSlash(segment) ==> NoSlash(TruncatePathSegment(lower, segment, suffix))
  {
    hide Utf8Length, Utf8Bytes, HashText, Truncated, IsBreak;
    Utf8LengthCountsBytes(TruncatePathSegment(lower, segment, suffix));
    var preserved := PreservedSuffix(lower, segment, suffix);
    var stem := segment[..|segment| - |preserved|];
    var truncation := [TILDE] + HashText(segment);
    TruncationText(segment);
    TruncationIsLongest(segment, MAX_PATH_SEGMENT_BYTES);
    Utf8LengthCountsBytes(Truncated(segment, MAX_PATH_SEGMENT_BYTES));
    var suffixBytes := Utf8Length(truncation) + Utf8Length(preserved);
    EmptyFits();
    if suffixBytes < MAX_PATH_SEGMENT_BYTES {
      var budget := MAX_PATH_SEGMENT_BYTES - suffixBytes;
      TruncationIsLongest(stem, budget);
      Utf8LengthCountsBytes(Truncated(stem, budget));
      JoiningAddsNoBytes(Truncated(stem, budget) + truncation, preserved);
      JoiningAddsNoBytes(Truncated(stem, budget), truncation);
    }
  }

  lemma EmptyFits()
    ensures Utf8Length([]) == 0
  {
  }

  // ----- The whole path

  function Split(path: Text): (segments: seq<Text>)
    ensures segments != []
  {
    if path == [] then [[]] else
    var rest := Split(path[1..]);
    if path[0] == SLASH then [[]] + rest else [[path[0]] + rest[0]] + rest[1..]
  }

  function JoinSegments(segments: seq<Text>): Text {
    if segments == [] then []
    else if |segments| == 1 then segments[0]
    else segments[0] + [SLASH] + JoinSegments(segments[1..])
  }

  lemma {:induction false} SplitSegmentsAreSlashFree(path: Text)
    ensures forall k :: 0 <= k < |Split(path)| ==> NoSlash(Split(path)[k])
  {
    if path != [] {
      SplitSegmentsAreSlashFree(path[1..]);
      var rest := Split(path[1..]);
      assert NoSlash(rest[0]);
    }
  }

  lemma {:induction false} SplitOne(s: Text)
    requires NoSlash(s)
    ensures Split(s) == [s]
  {
    if s != [] {
      SplitOne(s[1..]);
      assert [s[0]] + s[1..] == s;
    }
  }

  lemma {:induction false} SplitFirst(s: Text, rest: Text)
    requires NoSlash(s)
    ensures Split(s + [SLASH] + rest) == [s] + Split(rest)
  {
    var path := s + [SLASH] + rest;
    if s == [] {
      assert path[0] == SLASH && path[1..] == rest;
    } else {
      assert path[1..] == s[1..] + [SLASH] + rest;
      SplitFirst(s[1..], rest);
      assert [s[0]] + s[1..] == s;
    }
  }

  lemma {:induction false} SplitInvertsJoin(segments: seq<Text>)
    requires segments != [] && forall k :: 0 <= k < |segments| ==> NoSlash(segments[k])
    ensures Split(JoinSegments(segments)) == segments
    decreases |segments|
  {
    hide Split, NoSlash;
    if |segments| == 1 {
      SplitOne(segments[0]);
    } else {
      SplitInvertsJoin(segments[1..]);
      SplitFirst(segments[0], JoinSegments(segments[1..]));
    }
  }

  function LimitSegments(lower: Lowering, segments: seq<Text>, dotExt: Text): (limited: seq<Text>)
    ensures |limited| == |segments|
  {
    seq(|segments|, k requires 0 <= k < |segments| =>
      TruncatePathSegment(lower, segments[k], if k == |segments| - 1 then dotExt else []))
  }

  function LimitPathSegmentBytes(lower: Lowering, path: Text, dotExt: Text): Text {
    JoinSegments(LimitSegments(lower, Split(path), dotExt))
  }

  function EnsureTrailingExtension(lower: Lowering, value: Text, dotExt: Text): Text {
    if dotExt == [] || EndsWith(lower(value), lower(dotExt)) then value else value + dotExt
  }

  function EnsurePathLastSegmentExtension(lower: Lowering, path: Text, dotExt: Text): Text {
    if dotExt == [] then path else
    var segments := Split(path);
    var last := |segments| - 1;
    JoinSegments(segments[last := EnsureTrailingExtension(lower, segments[last], dotExt)])
  }

  /** The path before its segments are limited: a resolved folder is completed by the file name. */
  function FullPath(lower: Lowering, resolved: Text, filename: Text, dotExt: Text): Text {
    if EndsWith(resolved, [SLASH]) then resolved + EnsureTrailingExtension(lower, filename, dotExt)
    else EnsurePathLastSegmentExtension(lower, resolved, dotExt)
  }

  /** The last stage; nothing resolved is no path. */
  function ResolveUploadPath(lower: Lowering, resolved: Text, filename: Text, dotExt: Text): Option<Text> {
    if resolved == [] then None
    else Some(LimitPathSegmentBytes(lower, FullPath(lower, resolved, filename, dotExt), dotExt))
  }

  lemma LimitedSegments(lower: Lowering, path: Text, dotExt: Text)
    ensures Split(LimitPathSegmentBytes(lower, path, dotExt)) == LimitSegments(lower, Split(path), dotExt)
  {
    hide Split, TruncatePathSegment, NoSlash, JoinSegments;
    SplitSegmentsAreSlashFree(path);
    var segments := Split(path);
    var limited := LimitSegments(lower, segments, dotExt);
    forall k | 0 <= k < |limited|
      ensures NoSlash(limited[k])
    {
      SegmentFits(lower, segments[k], if k == |segments| - 1 then dotExt else []);
    }
    SplitInvertsJoin(limited);
  }

  /** Whatever is resolved, every segment of the path has at most 255 bytes of UTF-8. */
  lemma EverySegmentFits(lower: Lowering, resolved: Text, filename: Text, dotExt: Text)
    requires resolved != []
    ensures var path := ResolveUploadPath(lower, resolved, filename, dotExt);
            && path.Some?
            && forall k :: 0 <= k < |Split(path.value)| ==> |Utf8Bytes(Split(path.value)[k])| <= MAX_PATH_SEGMENT_BYTES
  {
    hide Split, TruncatePathSegment, Utf8Length, FullPath, LimitPathSegmentBytes;
    var full := FullPath(lower, resolved, filename, dotExt);
    LimitedSegments(lower, full, dotExt);
    var segments := Split(full);
    forall k | 0 <= k < |segments|
      ensures |Utf8Bytes(LimitSegments(lower, segments, dotExt)[k])| <= MAX_PATH_SEGMENT_BYTES
    {
      SegmentFits(lower, segments[k], if k == |segments| - 1 then dotExt else []);
    }
  }

  // ----- The extension survives

  /** How lower-casing treats a slash-free ASCII extension: it can be told from the last units alone, whatever comes
      before, and no slash is taken for a part of it. */
  ghost predicate LowersApart(lower: Lowering, dotExt: Text) {
    && (forall s :: EndsWith(lower(s), lower(dotExt)) ==> |dotExt| <= |s| && lower(LastUnits(s, |dotExt|)) == lower(dotExt))
    && (forall s, t :: lower(t) == lower(dotExt) ==> EndsWith(lower(s + t), lower(dotExt)))
    && (forall t :: lower(t) == lower(dotExt) ==> NoSlash(t))
  }

  /** What a unit at a position of a text is lowered to: one unit or several, and perhaps dependent on the units around. */
  type Casing = (Text, nat) -> Text

  function LoweredTo(casing: Casing, s: Text, n: nat): Text {
    if n == 0 then [] else LoweredTo(casing, s, n - 1) + casing(s, n - 1)
  }

  /** Lower-casing by any such rule. */
  function ByCasing(casing: Casing): Lowering {
    (s: Text) => LoweredTo(casing, s, |s|)
  }

  /** The units of the lowered extension `ext` come from single units, whatever is around these; none of them, and only the
      slash, comes from a slash. What a unit is lowered to may be longer, if it then ends in another unit. */
  ghost predicate Apart(casing: Casing, ext: Text) {
    && (forall s, i :: 0 <= i < |s| ==> casing(s, i) != [])
    && (forall s, i :: 0 <= i < |s| && |casing(s, i)| > 1 ==> casing(s, i)[|casing(s, i)| - 1] !in ext)
    && (forall s, i, t, j :: 0 <= i < |s| && 0 <= j < |t| && s[i] == t[j] && |casing(s, i)| == 1 && casing(s, i)[0] in ext ==>
          casing(t, j) == casing(s, i))
    && (forall s, i :: 0 <= i < |s| && |casing(s, i)| == 1 ==> (s[i] == SLASH <==> casing(s, i)[0] == SLASH))
  }

  lemma ApartAt(casing: Casing, ext: Text, s: Text, i: nat)
    requires Apart(casing, ext) && i < |s|
    ensures casing(s, i) != [] && (|casing(s, i)| > 1 ==> casing(s, i)[|casing(s, i)| - 1] !in ext)
    ensures |casing(s, i)| == 1 ==> (s[i] == SLASH <==> casing(s, i)[0] == SLASH)
  {
  }

  lemma ApartElsewhere(casing: Casing, ext: Text, s: Text, i: nat, t: Text, j: nat)
    requires Apart(casing, ext) && i < |s| && j < |t| && s[i] == t[j] && |casing(s, i)| == 1 && casing(s, i)[0] in ext
    ensures casing(t, j) == casing(s, i)
  {
  }

  predicate Single(casing: Casing, s: Text, from: nat, to: nat, ext: Text) {
    forall i :: from <= i < to ==> |casing(s, i)| == 1 && casing(s, i)[0] in ext
  }

  lemma LastOf(a: Text, b: Text, end: Text)
    requires b != [] && end != [] && EndsWith(a + b, end)
    ensures b[|b| - 1] == end[|end| - 1]
    ensures |b| == 1 ==> EndsWith(a, end[..|end| - 1])
  {
    var all := a + b;
    assert all[|all| - |end|..][|end| - 1] == all[|all| - 1];
    if |b| == 1 {
      assert a[|a| - (|end| - 1)..] == all[|all| - |end|..][..|end| - 1];
    }
  }

  /** A lowered text that ends in units of the extension got each of them from one unit. */
  lemma {:induction false} EndIsSingle(casing: Casing, s: Text, k: nat, end: Text, ext: Text)
    requires Apart(casing, ext) && k <= |s| && EndsWith(LoweredTo(casing, s, k), end) && forall u <- end :: u in ext
    ensures |end| <= k && Single(casing, s, k - |end|, k, ext)
    ensures LoweredTo(casing, s, k) == LoweredTo(casing, s, k - |end|) + end
    decreases |end|
  {
    hide Apart, EndsWith, Single, LoweredTo;
    if end != [] {
      EndsInSomething(casing, s, k, end);
      LoweredNext(casing, s, k - 1);
      var before, last, m := LoweredTo(casing, s, k - 1), casing(s, k - 1), |end| - 1;
      ApartAt(casing, ext, s, k - 1);
      LastOf(before, last, end);
      assert end[m] in end;
      EndIsSingle(casing, s, k - 1, end[..m], ext);
      assert last == [end[m]] && end[..m] + last == end;
      assert before + last == LoweredTo(casing, s, k - |end|) + (end[..m] + last);
      assert end[m] in ext;
      SingleNext(casing, s, k - |end|, k - 1, ext);
    } else {
      SingleNone(casing, s, k, ext);
      assert LoweredTo(casing, s, k) + [] == LoweredTo(casing, s, k);
    }
  }

  lemma LoweredNext(casing: Casing, s: Text, k: nat)
    ensures LoweredTo(casing, s, k + 1) == LoweredTo(casing, s, k) + casing(s, k)
  {
  }

  lemma SingleNone(casing: Casing, s: Text, k: nat, ext: Text)
    ensures Single(casing, s, k, k, ext)
  {
  }

  lemma SingleNext(casing: Casing, s: Text, from: nat, to: nat, ext: Text)
    requires from <= to
    ensures Single(casing, s, from, to + 1, ext) <==> Single(casing, s, from, to, ext) && |casing(s, to)| == 1 && casing(s, to)[0] in ext
  {
  }

  lemma EndsInSomething(casing: Casing, s: Text, k: nat, end: Text)
    requires end != [] && EndsWith(LoweredTo(casing, s, k), end)
    ensures k > 0
  {
  }

  lemma {:induction false} NoneIsDropped(casing: Casing, s: Text, k: nat, ext: Text)
    requires Apart(casing, ext) && k <= |s|
    ensures |LoweredTo(casing, s, k)| >= k
  {
    hide Apart;
    if k > 0 {
      ApartAt(casing, ext, s, k - 1);
      NoneIsDropped(casing, s, k - 1, ext);
    }
  }

  predicate SameUnits(s: Text, i: nat, t: Text, j: nat, n: nat) {
    i + n <= |s| && j + n <= |t| && forall k :: i <= k < i + n ==> s[k] == t[j + (k - i)]
  }

  /** The same units are lowered alike elsewhere. */
  lemma {:induction false} LoweredAlike(casing: Casing, s: Text, i: nat, t: Text, j: nat, units: Text, ext: Text)
    requires SameUnits(s, i, t, j, |units|) && Single(casing, s, i, i + |units|, ext)
    requires Apart(casing, ext) && LoweredTo(casing, s, i + |units|) == LoweredTo(casing, s, i) + units
    ensures LoweredTo(casing, t, j + |units|) == LoweredTo(casing, t, j) + units
    decreases |units|
  {
    hide Apart, Single, LoweredTo;
    if units != [] {
      var n := |units| - 1;
      var last := casing(s, i + n);
      SingleNext(casing, s, i, i + n, ext);
      LoweredNext(casing, s, i + n);
      LoweredNext(casing, t, j + n);
      assert s[i + n] == t[j + (i + n - i)];
      Unappend(LoweredTo(casing, s, i + n), last, LoweredTo(casing, s, i), units);
      LoweredAlike(casing, s, i, t, j, units[..n], ext);
      ApartElsewhere(casing, ext, s, i + n, t, j + n);
      assert LoweredTo(casing, t, j) + units[..n] + last == LoweredTo(casing, t, j) + (units[..n] + last);
    } else {
      assert LoweredTo(casing, t, j) + [] == LoweredTo(casing, t, j);
    }
  }

  lemma Unappend(a: Text, last: Text, b: Text, units: Text)
    requires |last| == 1 && units != [] && a + last == b + units
    ensures a == b + units[..|units| - 1] && units == units[..|units| - 1] + last
  {
    var n := |units| - 1;
    assert b + units == b + units[..n] + [units[n]];
    assert a == (a + last)[..|a|] && last == (a + last)[|a|..];
    assert |a| == |b + units[..n]|;
  }

  /** A text that is lowered to the extension alone. */
  lemma WholeIsSingle(casing: Casing, t: Text, ext: Text)
    requires Apart(casing, ext) && LoweredTo(casing, t, |t|) == ext
    ensures |t| == |ext| && Single(casing, t, 0, |t|, ext)
    ensures NoSlash(t) <==> NoSlash(ext)
  {
    hide Apart, LoweredTo, Single, NoSlash;
    EndIsSingle(casing, t, |t|, ext, ext);
    NoneIsDropped(casing, t, |t| - |ext|, ext);
    var before := LoweredTo(casing, t, |t| - |ext|);
    assert |ext| == |before| + |ext|;
    SlashesStay(casing, t, |t|, ext);
    assert t[..|t|] == t;
  }

  lemma {:induction false} SlashesStay(casing: Casing, t: Text, k: nat, ext: Text)
    requires Apart(casing, ext) && k <= |t| && Single(casing, t, 0, k, ext)
    ensures NoSlash(t[..k]) <==> NoSlash(LoweredTo(casing, t, k))
    decreases k
  {
    hide Apart;
    if k > 0 {
      ApartAt(casing, ext, t, k - 1);
      SlashesStay(casing, t, k - 1, ext);
      assert t[..k] == t[..k - 1] + [t[k - 1]];
      assert casing(t, k - 1) == [casing(t, k - 1)[0]];
    }
  }

  lemma LastUnitsAreLowered(casing: Casing, s: Text, ext: Text)
    requires Apart(casing, ext) && EndsWith(LoweredTo(casing, s, |s|), ext)
    ensures |ext| <= |s| && LoweredTo(casing, LastUnits(s, |ext|), |ext|) == ext
  {
    hide Apart, LoweredTo, EndsWith, Single, SameUnits, LastUnits;
    var n := |ext|;
    EndIsSingle(casing, s, |s|, ext, ext);
    var t := LastUnits(s, n);
    LastUnitsAre(s, n);
    LoweredAlike(casing, s, |s| - n, t, 0, ext, ext);
    NothingLowered(casing, t);
    assert [] + ext == ext;
  }

  lemma NothingLowered(casing: Casing, t: Text)
    ensures LoweredTo(casing, t, 0) == []
  {
  }

  lemma LoweredAfter(casing: Casing, s: Text, t: Text, ext: Text)
    requires Apart(casing, ext) && LoweredTo(casing, t, |t|) == ext
    ensures EndsWith(LoweredTo(casing, s + t, |s + t|), ext)
  {
    hide Apart, LoweredTo;
    WholeIsSingle(casing, t, ext);
    assert SameUnits(t, 0, s + t, |s|, |t|);
    NothingLowered(casing, t);
    assert [] + ext == ext;
    LoweredAlike(casing, t, 0, s + t, |s|, ext, ext);
  }

  /** Lower-casing treats an extension this way whatever it does to other units, be it unit by unit or not. */
  lemma CasingLowersApart(casing: Casing, dotExt: Text)
    requires NoSlash(dotExt) && Apart(casing, ByCasing(casing)(dotExt))
    ensures LowersApart(ByCasing(casing), dotExt)
  {
    hide Apart, LoweredTo, EndsWith, LastUnits, NoSlash;
    var lower, n := ByCasing(casing), |dotExt|;
    var ext := lower(dotExt);
    WholeIsSingle(casing, dotExt, ext);
    forall s | EndsWith(lower(s), ext)
      ensures n <= |s| && lower(LastUnits(s, n)) == ext
    {
      LastUnitsAreLowered(casing, s, ext);
      assert |LastUnits(s, n)| == n by {
        LastUnitsAre(s, n);
      }
    }
    forall s, t | lower(t) == ext
      ensures EndsWith(lower(s + t), ext)
    {
      LoweredAfter(casing, s, t, ext);
    }
    forall t | lower(t) == ext
      ensures NoSlash(t)
    {
      WholeIsSingle(casing, t, ext);
    }
  }

  /** Part of the Unicode rule: a capital I with a dot is lowered to two units, and a capital sigma according to its place. */
  function SampleCasing(s: Text, i: nat): Text {
    if i >= |s| then []
    else if s[i] == 0x130 then [0x69, 0x307]
    else if s[i] == 0x3A3 then [if i + 1 < |s| then 0x3C3 else 0x3C2]
    else if 0x41 <= s[i] <= 0x5A then [s[i] + 0x20]
    else [s[i]]
  }

  lemma AsciiIsApart(ext: Text)
    requires forall u <- ext :: u < 0x80
    ensures Apart(SampleCasing, ext)
  {
    forall s, i | 0 <= i < |s|
      ensures SampleCasing(s, i) != []
      ensures |SampleCasing(s, i)| > 1 ==> SampleCasing(s, i)[|SampleCasing(s, i)| - 1] !in ext
      ensures |SampleCasing(s, i)| == 1 ==> (s[i] == SLASH <==> SampleCasing(s, i)[0] == SLASH)
    {
    }
  }

  lemma LastUnitsAre(s: Text, n: nat)
    requires n <= |s|
    ensures |LastUnits(s, n)| == n && SameUnits(s, |s| - n, LastUnits(s, n), 0, n)
  {
  }

  predicate HasExtension(lower: Lowering, s: Text, dotExt: Text) {
    EndsWith(lower(s), lower(dotExt))
  }

  lemma TruncationKeepsExtension(lower: Lowering, segment: Text, dotExt: Text)
    requires dotExt != [] && LowersApart(lower, dotExt) && HasExtension(lower, segment, dotExt)
    requires 9 + |Utf8Bytes(LastUnits(segment, |dotExt|))| < MAX_PATH_SEGMENT_BYTES
    ensures HasExtension(lower, TruncatePathSegment(lower, segment, dotExt), dotExt)
  {
    hide Utf8Length, Utf8Bytes, HashText, Truncated, EndsWith, LastUnits;
    TruncationText(segment);
    Utf8LengthCountsBytes(LastUnits(segment, |dotExt|));
    var preserved := PreservedSuffix(lower, segment, dotExt);
    assert lower(preserved) == lower(dotExt);
  }

  /** The last segment is what follows the last slash. */
  lemma {:induction false} LastSegmentIsSuffix(path: Text)
    ensures var segments := Split(path);
            var last := segments[|segments| - 1];
            && EndsWith(path, last)
            && (|last| < |path| ==> path[|path| - |last| - 1] == SLASH)
            && (|last| == |path| ==> segments == [path])
            && (|last| < |path| ==> |segments| > 1)
    decreases path
  {
    hide EndsWith;
    EndsWithItself(path);
    if path != [] {
      LastSegmentIsSuffix(path[1..]);
      var rest := Split(path[1..]);
      var last := rest[|rest| - 1];
      TailEndsAlike(path, last);
      if |last| == |path| - 1 && path[0] != SLASH {
        assert rest == [path[1..]] && [path[0]] + path[1..] == path;
        assert Split(path) == [path];
      } else {
        assert Split(path)[|Split(path)| - 1] == last;
      }
    }
  }

  lemma TailEndsAlike(path: Text, last: Text)
    requires path != [] && EndsWith(path[1..], last)
    ensures |last| < |path| && EndsWith(path, last) && (|last| == |path| - 1 ==> last == path[1..])
    ensures path[|path| - |last| - 1] == if |last| == |path| - 1 then path[0] else path[1..][|path| - 1 - |last| - 1]
  {
    assert path[1..][|path| - 1 - |last|..] == path[|path| - |last|..];
  }

  lemma EndsWithItself(path: Text)
    ensures EndsWith(path, path)
  {
  }

  lemma SlashIsBeforeEnding(path: Text, ending: Text, k: nat)
    requires EndsWith(path, ending) && NoSlash(ending) && k < |path| && path[k] == SLASH
    ensures k < |path| - |ending|
  {
    var from := |path| - |ending|;
    assert forall i :: from <= i < |path| ==> path[i] == ending[i - from] && path[i] != SLASH;
  }

  /** A slash-free ending of a path is an ending of its last segment. */
  lemma EndingIsInLastSegment(path: Text, ending: Text)
    requires EndsWith(path, ending) && NoSlash(ending)
    ensures var segments := Split(path); EndsWith(segments[|segments| - 1], ending)
  {
    hide Split;
    LastSegmentIsSuffix(path);
    var segments := Split(path);
    var last := segments[|segments| - 1];
    if |last| < |path| {
      SlashIsBeforeEnding(path, ending, |path| - |last| - 1);
    }
    assert path[|path| - |ending|..] == path[|path| - |last|..][|last| - |ending|..];
  }

  lemma NamedWithExtension(lower: Lowering, name: Text, dotExt: Text)
    requires dotExt != [] && NoSlash(dotExt) && LowersApart(lower, dotExt)
    ensures HasExtension(lower, EnsureTrailingExtension(lower, name, dotExt), dotExt)
    ensures NoSlash(name) ==> NoSlash(EnsureTrailingExtension(lower, name, dotExt))
  {
  }

  lemma ExtensionIsAnEnding(lower: Lowering, s: Text, dotExt: Text)
    requires LowersApart(lower, dotExt) && HasExtension(lower, s, dotExt)
    ensures var ending := LastUnits(s, |dotExt|); EndsWith(s, ending) && lower(ending) == lower(dotExt) && NoSlash(ending)
  {
    hide NoSlash, EndsWith, LastUnits;
    LastUnitsEnd(s, |dotExt|);
  }

  lemma LastUnitsEnd(s: Text, n: nat)
    ensures EndsWith(s, LastUnits(s, n))
  {
  }

  lemma LongerPathEndsAlike(folder: Text, name: Text, ending: Text)
    requires EndsWith(name, ending)
    ensures EndsWith(folder + name, ending)
  {
    assert (folder + name)[|folder + name| - |ending|..] == name[|name| - |ending|..];
  }

  lemma EndingIsTheExtension(lower: Lowering, s: Text, ending: Text, dotExt: Text)
    requires LowersApart(lower, dotExt) && EndsWith(s, ending) && lower(ending) == lower(dotExt)
    ensures HasExtension(lower, s, dotExt)
  {
    hide LowersApart, HasExtension;
    var head := s[..|s| - |ending|];
    assert s == head + ending;
    LongerHasExtension(lower, head, ending, dotExt);
  }

  lemma LongerHasExtension(lower: Lowering, head: Text, ending: Text, dotExt: Text)
    requires LowersApart(lower, dotExt) && lower(ending) == lower(dotExt)
    ensures HasExtension(lower, head + ending, dotExt)
  {
    hide NoSlash, EndsWith, LastUnits;
  }

  /** The file name after a folder may itself hold slashes; what follows its last one has the extension. */
  lemma FileNameHasExtension(lower: Lowering, folder: Text, filename: Text, dotExt: Text)
    requires dotExt != [] && NoSlash(dotExt) && LowersApart(lower, dotExt)
    ensures var segments := Split(folder + EnsureTrailingExtension(lower, filename, dotExt));
            HasExtension(lower, segments[|segments| - 1], dotExt)
  {
    hide Split, NoSlash, EnsureTrailingExtension, LowersApart, HasExtension;
    var name := EnsureTrailingExtension(lower, filename, dotExt);
    NamedWithExtension(lower, filename, dotExt);
    ExtensionIsAnEnding(lower, name, dotExt);
    var ending := LastUnits(name, |dotExt|);
    LongerPathEndsAlike(folder, name, ending);
    EndingIsInLastSegment(folder + name, ending);
    var segments := Split(folder + name);
    EndingIsTheExtension(lower, segments[|segments| - 1], ending, dotExt);
  }

  /** The last segment of the full path is a file name with the extension. */
  lemma FullPathHasExtension(lower: Lowering, resolved: Text, filename: Text, dotExt: Text)
    requires resolved != [] && dotExt != [] && NoSlash(dotExt) && LowersApart(lower, dotExt)
    ensures var segments := Split(FullPath(lower, resolved, filename, dotExt));
            HasExtension(lower, segments[|segments| - 1], dotExt)
  {
    hide Split, JoinSegments, NoSlash, HasExtension, LowersApart, EnsureTrailingExtension;
    if EndsWith(resolved, [SLASH]) {
      FileNameHasExtension(lower, resolved, filename, dotExt);
    } else {
      var segments := Split(resolved);
      var last := |segments| - 1;
      var name := EnsureTrailingExtension(lower, segments[last], dotExt);
      SplitSegmentsAreSlashFree(resolved);
      NamedWithExtension(lower, segments[last], dotExt);
      SplitInvertsJoin(segments[last := name]);
    }
  }

  /** The last segment of the resolved path still has the extension, as long as it leaves room for a stem. */
  lemma ResolvedPathHasExtension(lower: Lowering, resolved: Text, filename: Text, dotExt: Text)
    requires resolved != [] && dotExt != [] && NoSlash(dotExt) && LowersApart(lower, dotExt)
    requires var segments := Split(FullPath(lower, resolved, filename, dotExt));
             9 + |Utf8Bytes(LastUnits(segments[|segments| - 1], |dotExt|))| < MAX_PATH_SEGMENT_BYTES
    ensures var segments := Split(ResolveUploadPath(lower, resolved, filename, dotExt).value);
            HasExtension(lower, segments[|segments| - 1], dotExt)
  {
    hide Split, TruncatePathSegment, Utf8Bytes, FullPath, LimitPathSegmentBytes, LowersApart, HasExtension;
    var full := FullPath(lower, resolved, filename, dotExt);
    FullPathHasExtension(lower, resolved, filename, dotExt);
    LimitedSegments(lower, full, dotExt);
    var segments := Split(full);
    TruncationKeepsExtension(lower, segments[|segments| - 1], dotExt);
  }
}
