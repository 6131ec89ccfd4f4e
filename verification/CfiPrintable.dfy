/** Which identifiers the printer can write down, what is read back of them, and the tokens in between. */
module CfiPrintable {
  import opened Wrappers
  import opened CfiSyntax
  import Decimal

  // ----- The identifiers the printer can write down

  /** Decimal text that `parseFloat` reads back as itself. */
  predicate Numeral(t: string) {
    && t != ""
    && (forall k :: 0 <= k < |t| ==> IsFloatChar(t[k]))
    && ParseFloat(t) == t
  }

  /** Decimal text of a number that `parseFloat` may return. */
  predicate NumeralOrNaN(t: string) {
    t == "NaN" || Numeral(t)
  }

  /** A side is printed without escapes. */
  predicate PlainSide(side: string) {
    forall k :: 0 <= k < |side| ==> side[k] != '^' && side[k] != ';' && side[k] != '=' && side[k] != ']'
  }

  /** The numbers are held as the parser holds them; nothing is asked of ids, texts, indices, offsets and sides. */
  predicate Canonical(p: Part) {
    && (p.temporal == "" || NumeralOrNaN(p.temporal))
    && (forall k :: 0 <= k < |p.spatial| ==> NumeralOrNaN(p.spatial[k]))
  }

  ghost predicate CanonicalPath(path: Path) {
    forall k :: 0 <= k < |path| ==> Canonical(path[k])
  }

  ghost predicate CanonicalPaths(paths: seq<Path>) {
    forall k :: 0 <= k < |paths| ==> CanonicalPath(paths[k])
  }

  ghost predicate CanonicalCfi(c: Cfi) {
    match c
    case Point(paths) => paths != [] && CanonicalPaths(paths)
    case Range(parent, start, end) =>
      && parent != [] && CanonicalPaths(parent)
      && start != [] && CanonicalPaths(start)
      && end != [] && CanonicalPaths(end)
    case OpenRange(_, _) => false
  }

  /** What can be tokenized as it was printed, apart from spatial offsets that are not numbers. */
  predicate Readable(p: Part) {
    Canonical(p) && PlainSide(p.side)
  }

  ghost predicate ReadablePath(path: Path) {
    forall k :: 0 <= k < |path| ==> Readable(path[k])
  }

  ghost predicate ReadablePaths(paths: seq<Path>) {
    forall k :: 0 <= k < |paths| ==> ReadablePath(paths[k])
  }

  ghost predicate ReadableCfi(c: Cfi) {
    match c
    case Point(paths) => paths != [] && ReadablePaths(paths)
    case Range(parent, start, end) =>
      && parent != [] && ReadablePaths(parent)
      && start != [] && ReadablePaths(start)
      && end != [] && ReadablePaths(end)
    case OpenRange(_, _) => false
  }

  /** Whether a bracket can only be read as a text assertion: the part prints something between its index and its text. */
  predicate TextFollowsSomething(p: Part) {
    p.id != "" || OffsetText(p) != "" || TemporalText(p) != "" || p.spatial != []
  }

  /** What a caller can check before printing: an offset sits on an odd step, a temporal offset is neither zero nor NaN,
      no spatial offset but the last is NaN, a side is plain and accompanies an id or a text, and a text that is not blank
      follows an id or an offset. */
  predicate Printable(p: Part) {
    && (p.offset.Some? ==> Odd(p.index))
    && (p.temporal != "" ==> Truthy(p.temporal))
    && AfterNaN(p.spatial) == []
    && PlainSide(p.side)
    && (p.side != "" ==> p.id != "" || p.text != [])
    && (TextFollowsSomething(p) || FirstNonEmpty(p.text) == |p.text|)
  }

  ghost predicate PrintablePath(path: Path) {
    forall k :: 0 <= k < |path| ==> Printable(path[k])
  }

  ghost predicate PrintablePaths(paths: seq<Path>) {
    forall k :: 0 <= k < |paths| ==> PrintablePath(paths[k])
  }

  ghost predicate PrintableCfi(c: Cfi) {
    match c
    case Point(paths) => PrintablePaths(paths)
    case Range(parent, start, end) => PrintablePaths(parent) && PrintablePaths(start) && PrintablePaths(end)
    case OpenRange(_, _) => false
  }

  // ----- The identifier that is read back

  function FirstNonEmpty(texts: seq<string>): (k: nat)
    ensures k <= |texts|
    ensures forall i :: 0 <= i < k ==> texts[i] == ""
    ensures k < |texts| ==> texts[k] != ""
  {
    if texts == [] || texts[0] != "" then 0 else 1 + FirstNonEmpty(texts[1..])
  }

  /** The texts that appear between the brackets: a side alone brings an empty one. */
  function Shown(p: Part): seq<string> {
    if p.text == [] && p.id == "" && p.side != "" then [""] else p.text
  }

  /** The spatial offsets up to the first that is not a number. */
  function UpToNaN(ts: seq<string>): (r: seq<string>)
    ensures r <= ts
  {
    if ts == [] then [] else if ts[0] == "NaN" then [ts[0]] else [ts[0]] + UpToNaN(ts[1..])
  }

  /** The spatial offsets after it, whose colons open character offsets. */
  function AfterNaN(ts: seq<string>): seq<string> {
    ts[|UpToNaN(ts)|..]
  }

  function LeadingDigits(t: string): (d: string)
    ensures d <= t && Decimal.AllDigits(d)
  {
    if t == "" || !Decimal.IsDigit(t[0]) then "" else [t[0]] + LeadingDigits(t[1..])
  }

  function OffsetRead(t: string): Number {
    ParseInt(LeadingDigits(t))
  }

  /** The character offset read back: that of an even step is lost, and one misread from the spatial offsets wins. */
  function RereadOffset(p: Part): Option<Number> {
    var after := AfterNaN(p.spatial);
    if after != [] then Some(OffsetRead(after[|after| - 1])) else if Odd(p.index) then p.offset else None
  }

  /** The part read back, its side being plain: falsy temporal offsets are lost, spatial offsets end at the first that is
      not a number, and when nothing precedes the texts, the first one that is not blank is taken for the id. */
  function Reread(p: Part): Part {
    var shown := Shown(p);
    var k := FirstNonEmpty(shown);
    var q := p.(offset := RereadOffset(p), temporal := if Truthy(p.temporal) then p.temporal else "", spatial := UpToNaN(p.spatial));
    if TextFollowsSomething(p) || k == |shown|
    then q.(text := shown)
    else q.(id := shown[k], text := shown[..k] + shown[k + 1..])
  }

  function RereadPath(path: Path): (r: Path)
    ensures |r| == |path|
  {
    seq(|path|, k requires 0 <= k < |path| => Reread(path[k]))
  }

  function RereadPaths(paths: seq<Path>): (r: seq<Path>)
    ensures |r| == |paths|
  {
    seq(|paths|, k requires 0 <= k < |paths| => RereadPath(paths[k]))
  }

  function RereadCfi(c: Cfi): Cfi {
    match c
    case Point(paths) => Point(RereadPaths(paths))
    case Range(parent, start, end) => Range(RereadPaths(parent), RereadPaths(start), RereadPaths(end))
    case OpenRange(parent, start) => OpenRange(RereadPaths(parent), RereadPaths(start))
  }

  // ----- The tokens of a printed identifier

  function ParamTokens(p: Part): seq<Token> {
    if p.side != "" then [Parameter("s", p.side)] else []
  }

  function IdTokens(p: Part): seq<Token> {
    if p.id != "" then [Bracket(p.id)] + ParamTokens(p) else []
  }

  function OffsetTokens(p: Part): seq<Token> {
    if p.offset.Some? && Odd(p.index) then [Offset(p.offset.value)] else []
  }

  function TemporalTokens(p: Part): seq<Token> {
    if Truthy(p.temporal) then [Temporal(p.temporal)] else []
  }

  function Spatials(ts: seq<string>): seq<Token> {
    if ts == [] then [] else [Spatial(ts[0])] + Spatials(ts[1..])
  }

  function Offsets(ts: seq<string>): seq<Token> {
    if ts == [] then [] else [Offset(OffsetRead(ts[0]))] + Offsets(ts[1..])
  }

  /** What the spatial offsets are tokenized to. */
  function SpatialTokens(ts: seq<string>): seq<Token> {
    Spatials(UpToNaN(ts)) + Offsets(AfterNaN(ts))
  }

  function Brackets(ts: seq<string>): seq<Token> {
    if ts == [] then [] else [Bracket(ts[0])] + Brackets(ts[1..])
  }

  function AssertionTokens(p: Part): seq<Token> {
    if Shown(p) == [] then [] else Brackets(Shown(p)) + ParamTokens(p)
  }

  function PartTokens(p: Part): seq<Token> {
    [Step(p.index)] + IdTokens(p) + OffsetTokens(p) + TemporalTokens(p) + SpatialTokens(p.spatial) + AssertionTokens(p)
  }

  function PathTokens(path: Path): seq<Token> {
    if path == [] then [] else PartTokens(path[0]) + PathTokens(path[1..])
  }

  function PathsTokens(paths: seq<Path>): seq<Token> {
    if paths == [] then []
    else if |paths| == 1 then PathTokens(paths[0])
    else PathTokens(paths[0]) + [Indirection] + PathsTokens(paths[1..])
  }

  function InnerTokens(c: Cfi): seq<Token> {
    match c
    case Point(paths) => PathsTokens(paths)
    case Range(parent, start, end) => PathsTokens(parent) + [Comma] + PathsTokens(start) + [Comma] + PathsTokens(end)
    case OpenRange(parent, start) => PathsTokens(parent) + [Comma] + PathsTokens(start)
  }
}
