/** Ranges of canonical fragment identifiers: collapsing, building from two points, and the comparison order. */
module CfiRange {
  import opened Wrappers
  import opened Bytes
  import opened CfiSyntax
  import opened CfiPrintable
  import opened CfiRoundTrip

  // ----- Collapsing

  /** What collapsing and comparing need: every list of paths is non-empty, and the end is set. */
  predicate Proper(c: Cfi) {
    match c
    case Point(paths) => paths != []
    case Range(parent, start, end) => parent != [] && start != [] && end != []
    case OpenRange(_, _) => false
  }

  function ConcatArrays(a: seq<Path>, b: seq<Path>): seq<Path>
    requires a != [] && b != []
  {
    a[..|a| - 1] + [a[|a| - 1] + b[0]] + b[1..]
  }

  function Collapse(c: Cfi, toEnd: bool): (paths: seq<Path>)
    requires Proper(c)
    ensures paths != []
  {
    match c
    case Point(paths) => paths
    case Range(parent, start, end) => ConcatArrays(parent, if toEnd then end else start)
  }

  // ----- Building a range from two points

  predicate SameIndex(a: Part, b: Part) {
    a.index.Num? && a.index == b.index
  }

  predicate Falsy(offset: Option<Number>) {
    offset == None || offset == Some(NaN) || offset == Some(Num(0))
  }

  /** How many leading steps two local paths share; a step with a character offset is never shared. */
  function SharedLength(p: Path, q: Path): (n: nat)
    ensures n <= |p| && n <= |q|
  {
    if p != [] && q != [] && SameIndex(p[0], q[0]) && Falsy(p[0].offset) && Falsy(q[0].offset)
    then 1 + SharedLength(p[1..], q[1..])
    else 0
  }

  function RangeOf(from: seq<Path>, to: seq<Path>): (c: Cfi)
    requires from != [] && to != []
    ensures c.Range? && Proper(c)
  {
    var p, q := from[|from| - 1], to[|to| - 1];
    var n := SharedLength(p, q);
    Range(from[..|from| - 1] + [p[..n]], [p[n..]], [q[n..]])
  }

  /** The first unshared position is where the loop stops pushing to the parent. */
  lemma {:induction false} SharedLengthIsMaximal(p: Path, q: Path)
    ensures var n := SharedLength(p, q);
            && (forall k :: 0 <= k < n ==> SameIndex(p[k], q[k]) && Falsy(p[k].offset) && Falsy(q[k].offset))
            && (n < |p| && n < |q| ==> !(SameIndex(p[n], q[n]) && Falsy(p[n].offset) && Falsy(q[n].offset)))
  {
    if SharedLength(p, q) > 0 {
      SharedLengthIsMaximal(p[1..], q[1..]);
      var n := SharedLength(p, q);
      assert forall k :: 1 <= k < |p| ==> p[k] == p[1..][k - 1];
      assert forall k :: 1 <= k < |q| ==> q[k] == q[1..][k - 1];
    }
  }

  lemma SliceNext(p: Path, n: nat, i: nat)
    requires n <= |p| && n <= i
    ensures p[n..Min(i + 1, |p|)] == if i < |p| then p[n..Min(i, |p|)] + [p[i]] else p[n..Min(i, |p|)]
  {
  }

  /** The loop of `buildRange` over the two local paths. */
  method DivideSteps(localFrom: Path, localTo: Path) returns (localParent: Path, localStart: Path, localEnd: Path)
    ensures var n := SharedLength(localFrom, localTo);
            localParent == localFrom[..n] && localStart == localFrom[n..] && localEnd == localTo[n..]
  {
    hide SameIndex, Falsy, SharedLength;
    localParent, localStart, localEnd := [], [], [];
    var pushToParent := true;
    var len := if |localFrom| > |localTo| then |localFrom| else |localTo|;
    ghost var n := SharedLength(localFrom, localTo);
    SharedLengthIsMaximal(localFrom, localTo);
    for i := 0 to len
      invariant pushToParent == (i <= n)
      invariant i <= n ==> localParent == localFrom[..i] && localStart == [] && localEnd == []
      invariant i >= n ==> localParent == localFrom[..n]
      invariant i >= n ==> localStart == localFrom[n..Min(i, |localFrom|)]
      invariant i >= n ==> localEnd == localTo[n..Min(i, |localTo|)]
    {
      var inFrom, inTo := i < |localFrom|, i < |localTo|;
      pushToParent := pushToParent && inFrom && inTo && SameIndex(localFrom[i], localTo[i])
                      && Falsy(localFrom[i].offset) && Falsy(localTo[i].offset);
      if n <= i {
        SliceNext(localFrom, n, i);
        SliceNext(localTo, n, i);
      }
      if pushToParent {
        localParent := localParent + [localFrom[i]];
      } else {
        if inFrom {
          localStart := localStart + [localFrom[i]];
        }
        if inTo {
          localEnd := localEnd + [localTo[i]];
        }
      }
    }
  }

  method BuildRange(fromCfi: Cfi, toCfi: Cfi) returns (r: string)
    requires Proper(fromCfi) && Proper(toCfi)
    ensures r == ToString(RangeOf(Collapse(fromCfi, false), Collapse(toCfi, true)))
  {
    hide ToString, SharedLength, Collapse;
    var from, to := Collapse(fromCfi, false), Collapse(toCfi, true);
    var localParent, localStart, localEnd := DivideSteps(from[|from| - 1], to[|to| - 1]);
    r := ToString(Range(from[..|from| - 1] + [localParent], [localStart], [localEnd]));
  }

  // ----- Comparing

  predicate Greater(x: Number, y: Number) {
    x.Num? && y.Num? && x.n > y.n
  }

  /** A missing offset is neither greater nor less than any other. */
  predicate OffsetGreater(x: Option<Number>, y: Option<Number>) {
    x.Some? && y.Some? && Greater(x.value, y.value)
  }

  /** Lexicographic on indices, a prefix first; offsets count on the last step only. */
  function ComparePath(p: Path, q: Path): (r: int)
    ensures -1 <= r <= 1
  {
    if p == [] && q == [] then 0
    else if p == [] then -1
    else if q == [] then 1
    else if Greater(p[0].index, q[0].index) then 1
    else if Greater(q[0].index, p[0].index) then -1
    else if |p| > 1 || |q| > 1 then ComparePath(p[1..], q[1..])
    else if OffsetGreater(p[0].offset, q[0].offset) then 1
    else if OffsetGreater(q[0].offset, p[0].offset) then -1
    else 0
  }

  function PathOr(paths: seq<Path>, i: nat): Path {
    if i < |paths| then paths[i] else []
  }

  function ComparePathsFrom(a: seq<Path>, b: seq<Path>, i: nat): (r: int)
    ensures -1 <= r <= 1
    decreases |a| + |b| - i
  {
    if i >= |a| && i >= |b| then 0 else
    var c := ComparePath(PathOr(a, i), PathOr(b, i));
    if c != 0 then c else ComparePathsFrom(a, b, i + 1)
  }

  function ComparePaths(a: seq<Path>, b: seq<Path>): (r: int)
    ensures -1 <= r <= 1
  {
    ComparePathsFrom(a, b, 0)
  }

  /** Ranges are compared by their starts, then by their ends. */
  function CompareCfi(a: Cfi, b: Cfi): (r: int)
    requires Proper(a) && Proper(b)
    ensures -1 <= r <= 1
  {
    var c := ComparePaths(Collapse(a, false), Collapse(b, false));
    if c != 0 then c else ComparePaths(Collapse(a, true), Collapse(b, true))
  }

  method ComparePoints(a: seq<Path>, b: seq<Path>) returns (r: int)
    ensures r == ComparePaths(a, b)
  {
    var longest := if |a| > |b| then |a| else |b|;
    for i := 0 to longest
      invariant ComparePaths(a, b) == ComparePathsFrom(a, b, i)
    {
      var p := if i < |a| then a[i] else [];
      var q := if i < |b| then b[i] else [];
      var maxIndex := (if |p| > |q| then |p| else |q|) - 1;
      var j := 0;
      while j <= maxIndex
        invariant 0 <= j <= maxIndex + 1
        invariant j <= |p| && j <= |q|
        invariant ComparePath(p, q) == ComparePath(p[j..], q[j..])
      {
        if j >= |p| {
          return -1;
        }
        if j >= |q| {
          return 1;
        }
        var x, y := p[j], q[j];
        if Greater(x.index, y.index) {
          return 1;
        }
        if Greater(y.index, x.index) {
          return -1;
        }
        if j == maxIndex {
          if OffsetGreater(x.offset, y.offset) {
            return 1;
          }
          if OffsetGreater(y.offset, x.offset) {
            return -1;
          }
          assert p[j + 1..] == [] && q[j + 1..] == [];
        } else {
          assert p[j..][1..] == p[j + 1..] && q[j..][1..] == q[j + 1..];
        }
        j := j + 1;
      }
    }
    r := 0;
  }

  method Compare(a: Cfi, b: Cfi) returns (r: int)
    requires Proper(a) && Proper(b)
    ensures r == CompareCfi(a, b)
  {
    if !a.Point? || !b.Point? {
      r := ComparePoints(Collapse(a, false), Collapse(b, false));
      if r == 0 {
        r := ComparePoints(Collapse(a, true), Collapse(b, true));
      }
    } else {
      r := ComparePoints(a.paths, b.paths);
    }
  }

  // ----- The order

  lemma {:induction false} ComparePathAntisymmetric(p: Path, q: Path)
    ensures ComparePath(p, q) == -ComparePath(q, p)
  {
    if p != [] && q != [] {
      ComparePathAntisymmetric(p[1..], q[1..]);
    }
  }

  lemma {:induction false} ComparePathsAntisymmetric(a: seq<Path>, b: seq<Path>, i: nat)
    ensures ComparePathsFrom(a, b, i) == -ComparePathsFrom(b, a, i)
    decreases |a| + |b| - i
  {
    ComparePathAntisymmetric(PathOr(a, i), PathOr(b, i));
    if i < |a| || i < |b| {
      ComparePathsAntisymmetric(a, b, i + 1);
    }
  }

  /** Swapping the arguments flips the sign, for all identifiers. */
  lemma CompareAntisymmetric(a: Cfi, b: Cfi)
    requires Proper(a) && Proper(b)
    ensures CompareCfi(a, b) == -CompareCfi(b, a)
  {
    ComparePathsAntisymmetric(Collapse(a, false), Collapse(b, false), 0);
    ComparePathsAntisymmetric(Collapse(a, true), Collapse(b, true), 0);
  }

  /** All indices are numbers, and the last step has an offset exactly when it is odd. */
  predicate Orderly(p: Path) {
    && (forall k :: 0 <= k < |p| ==> p[k].index.Num?)
    && (p != [] ==> var last := p[|p| - 1];
                    if Odd(last.index) then last.offset.Some? && last.offset.value.Num? else last.offset == None)
  }

  predicate OrderlyPaths(paths: seq<Path>) {
    forall k :: 0 <= k < |paths| ==> Orderly(paths[k])
  }

  predicate OrderlyCfi(c: Cfi) {
    Proper(c) && OrderlyPaths(Collapse(c, false)) && OrderlyPaths(Collapse(c, true))
  }

  lemma {:induction false} ComparePathTransitive(p: Path, q: Path, r: Path)
    requires Orderly(p) && Orderly(q) && Orderly(r)
    requires ComparePath(p, q) <= 0 && ComparePath(q, r) <= 0
    ensures ComparePath(p, r) <= 0
    ensures ComparePath(p, q) < 0 || ComparePath(q, r) < 0 ==> ComparePath(p, r) < 0
  {
    if p != [] && q != [] && r != [] {
      if p[0].index == q[0].index == r[0].index && (|p| > 1 || |q| > 1) && (|q| > 1 || |r| > 1) {
        assert forall s: Path :: Orderly(s) && |s| > 1 ==> s[1..][|s[1..]| - 1] == s[|s| - 1];
        ComparePathTransitive(p[1..], q[1..], r[1..]);
      }
    }
  }

  lemma {:induction false} ComparePathsTransitive(a: seq<Path>, b: seq<Path>, c: seq<Path>, i: nat)
    requires OrderlyPaths(a) && OrderlyPaths(b) && OrderlyPaths(c)
    requires ComparePathsFrom(a, b, i) <= 0 && ComparePathsFrom(b, c, i) <= 0
    ensures ComparePathsFrom(a, c, i) <= 0
    ensures ComparePathsFrom(a, b, i) < 0 || ComparePathsFrom(b, c, i) < 0 ==> ComparePathsFrom(a, c, i) < 0
    decreases |a| + |b| + |c| - i
  {
    hide ComparePath, Orderly;
    if i < |a| || i < |b| || i < |c| {
      PathOrIsOrderly(a, i);
      PathOrIsOrderly(b, i);
      PathOrIsOrderly(c, i);
      var x, y, z := PathOr(a, i), PathOr(b, i), PathOr(c, i);
      NothingToCompare(a, b, i);
      NothingToCompare(b, c, i);
      NothingToCompare(a, c, i);
      ComparePathTransitive(x, y, z);
      if ComparePath(x, y) == 0 && ComparePath(y, z) == 0 {
        ComparePathsTransitive(a, b, c, i + 1);
      }
    }
  }

  lemma PathOrIsOrderly(a: seq<Path>, i: nat)
    requires OrderlyPaths(a)
    ensures Orderly(PathOr(a, i))
  {
  }

  lemma NothingToCompare(a: seq<Path>, b: seq<Path>, i: nat)
    ensures i >= |a| && i >= |b| ==> ComparePath(PathOr(a, i), PathOr(b, i)) == 0 && ComparePathsFrom(a, b, i + 1) == 0
  {
  }

  /** A total preorder on orderly identifiers, ranges included. */
  lemma CompareTransitive(a: Cfi, b: Cfi, c: Cfi)
    requires OrderlyCfi(a) && OrderlyCfi(b) && OrderlyCfi(c)
    requires CompareCfi(a, b) <= 0 && CompareCfi(b, c) <= 0
    ensures CompareCfi(a, c) <= 0
    ensures CompareCfi(a, b) < 0 || CompareCfi(b, c) < 0 ==> CompareCfi(a, c) < 0
  {
    var (a0, b0, c0) := (Collapse(a, false), Collapse(b, false), Collapse(c, false));
    var (a1, b1, c1) := (Collapse(a, true), Collapse(b, true), Collapse(c, true));
    ComparePathsTransitive(a0, b0, c0, 0);
    if ComparePaths(a0, b0) == 0 && ComparePaths(b0, c0) == 0 {
      ComparePathsTransitive(a1, b1, c1, 0);
    }
  }

  // ----- Building a range loses no endpoint

  lemma {:induction false} ComparePathReflexive(p: Path)
    ensures ComparePath(p, p) == 0
  {
    if p != [] {
      ComparePathReflexive(p[1..]);
    }
  }

  /** Exchanging the shared steps of one path for those of the other does not change its place. */
  lemma {:induction false} SharedStepsCompareEqual(p: Path, q: Path)
    ensures var n := SharedLength(p, q); ComparePath(p[..n] + q[n..], q) == 0
  {
    var n := SharedLength(p, q);
    if n == 0 {
      assert p[..0] + q[0..] == q;
      ComparePathReflexive(q);
    } else {
      SharedStepsCompareEqual(p[1..], q[1..]);
      assert (p[..n] + q[n..])[1..] == p[1..][..n - 1] + q[1..][n - 1..];
      if |q| == 1 {
        assert p[..n] + q[n..] == [p[0]];
      }
    }
  }

  lemma {:induction false} ComparePathsOfPrefixes(a: seq<Path>, b: seq<Path>, p: Path, q: Path, i: nat)
    requires |a| == |b| && i <= |a|
    ensures ComparePathsFrom(a + [p], b + [q], i) ==
            if ComparePathsFrom(a, b, i) != 0 then ComparePathsFrom(a, b, i) else ComparePath(p, q)
    decreases |a| - i
  {
    if i < |a| {
      ComparePathsOfPrefixes(a, b, p, q, i + 1);
    } else {
      assert ComparePathsFrom(a + [p], b + [q], i + 1) == 0;
    }
  }

  /** Both ends of a range built from two points of one document: the start is kept as it is, the end up to comparison. */
  lemma RangeOfKeepsEndpoints(from: seq<Path>, to: seq<Path>)
    requires from != [] && |to| == |from|
    requires ComparePaths(from[..|from| - 1], to[..|to| - 1]) == 0
    ensures Collapse(RangeOf(from, to), false) == from
    ensures ComparePaths(Collapse(RangeOf(from, to), true), to) == 0
  {
    hide SharedLength, ComparePathsFrom, ComparePath;
    var k := |from| - 1;
    var p, q := from[k], to[k];
    var n := SharedLength(p, q);
    CollapsedEnds(from, to);
    assert p[..n] + p[n..] == p;
    assert from == from[..k] + [p] && to == to[..k] + [q];
    SharedStepsCompareEqual(p, q);
    ComparePathsOfPrefixes(from[..k], to[..k], p[..n] + q[n..], q, 0);
  }

  lemma CollapsedEnds(from: seq<Path>, to: seq<Path>)
    requires from != [] && to != []
    ensures var p, q, before := from[|from| - 1], to[|to| - 1], from[..|from| - 1];
            var n := SharedLength(p, q);
            && Collapse(RangeOf(from, to), false) == before + [p[..n] + p[n..]]
            && Collapse(RangeOf(from, to), true) == before + [p[..n] + q[n..]]
  {
    hide SharedLength;
    var before, p := from[..|from| - 1], from[|from| - 1];
    var n := SharedLength(p, to[|to| - 1]);
    var parent := before + [p[..n]];
    assert parent[..|parent| - 1] == before && parent[|parent| - 1] == p[..n];
  }

  ghost predicate PrintablyReadable(paths: seq<Path>) {
    ReadablePaths(paths) && PrintablePaths(paths)
  }

  lemma RangeOfIsPrintable(from: seq<Path>, to: seq<Path>)
    requires from != [] && to != [] && PrintablyReadable(from) && PrintablyReadable(to)
    ensures ReadableCfi(RangeOf(from, to)) && PrintableCfi(RangeOf(from, to))
  {
  }

  /** The printed range, parsed again, collapses to its two endpoints. */
  lemma BuiltRangeKeepsEndpoints(fromCfi: Cfi, toCfi: Cfi)
    requires Proper(fromCfi) && Proper(toCfi)
    requires var from, to := Collapse(fromCfi, false), Collapse(toCfi, true);
             && PrintablyReadable(from) && PrintablyReadable(to)
             && |from| == |to| && ComparePaths(from[..|from| - 1], to[..|to| - 1]) == 0
    ensures var from, to := Collapse(fromCfi, false), Collapse(toCfi, true);
            var range := Parse(ToString(RangeOf(from, to)));
            && range.Success? && Proper(range.value)
            && Collapse(range.value, false) == from
            && ComparePaths(Collapse(range.value, true), to) == 0
  {
    var from, to := Collapse(fromCfi, false), Collapse(toCfi, true);
    RangeOfKeepsEndpoints(from, to);
    RangeOfIsPrintable(from, to);
    PlainRoundTripIffPrintable(RangeOf(from, to));
  }
}
