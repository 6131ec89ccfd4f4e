/** Where the comparison of identifiers is not transitive. It looks at indices and final offsets one after the other; an
    index that is not a number, or an offset that is missing, ties with every other one, so it floats between two that
    differ. */
module CfiTransitivity {
  import opened Wrappers
  import opened CfiSyntax
  import opened CfiRange

  // ----- What is compared, in order

  /** An index, the end of a path, or the offset of its last step. */
  datatype Key = Index(n: Number) | End | Final(offset: Option<Number>)

  function Rank(k: Key): int {
    match k
    case End => 0
    case Index(_) => 1
    case Final(_) => 2
  }

  /** The end of a path comes before a further step; indices and offsets compare as the loops compare them. */
  function KeyCompare(x: Key, y: Key): (r: int)
    ensures -1 <= r <= 1
  {
    match (x, y)
    case (Index(m), Index(n)) => if Greater(m, n) then 1 else if Greater(n, m) then -1 else 0
    case (Final(m), Final(n)) => if OffsetGreater(m, n) then 1 else if OffsetGreater(n, m) then -1 else 0
    case _ => if Rank(x) > Rank(y) then 1 else if Rank(x) < Rank(y) then -1 else 0
  }

  function CompareKeys(s: seq<Key>, t: seq<Key>): (r: int)
    ensures -1 <= r <= 1
    decreases |s|
  {
    if s == [] || t == [] then 0
    else if KeyCompare(s[0], t[0]) != 0 then KeyCompare(s[0], t[0])
    else CompareKeys(s[1..], t[1..])
  }

  /** Lists that tie all along end together. */
  predicate Matched(s: seq<Key>, t: seq<Key>)
    decreases |s|
  {
    if s == [] || t == [] then s == t else KeyCompare(s[0], t[0]) != 0 || Matched(s[1..], t[1..])
  }

  function PathKeys(p: Path): seq<Key> {
    if p == [] then [End, Final(None)]
    else if |p| == 1 then [Index(p[0].index), End, Final(p[0].offset)]
    else [Index(p[0].index)] + PathKeys(p[1..])
  }

  /** The keys of the paths from the `i`-th to the `n`-th, missing ones included, and then others. */
  function KeysThen(paths: seq<Path>, i: nat, n: nat, rest: seq<Key>): seq<Key>
    decreases n - i
  {
    if i >= n then rest else PathKeys(PathOr(paths, i)) + KeysThen(paths, i + 1, n, rest)
  }

  /** The start and then the end of an identifier, each taken as `n` paths. */
  function Keys(c: Cfi, n: nat): seq<Key>
    requires Proper(c)
  {
    KeysThen(Collapse(c, false), 0, n, KeysThen(Collapse(c, true), 0, n, []))
  }

  predicate IsWide(c: Cfi, n: nat)
    requires Proper(c)
  {
    |Collapse(c, false)| <= n && |Collapse(c, true)| <= n
  }

  lemma {:induction false} PathsByKeys(p: Path, q: Path, s: seq<Key>, t: seq<Key>)
    ensures CompareKeys(PathKeys(p) + s, PathKeys(q) + t) == if ComparePath(p, q) != 0 then ComparePath(p, q) else CompareKeys(s, t)
    ensures Matched(s, t) ==> Matched(PathKeys(p) + s, PathKeys(q) + t)
    decreases |p|
  {
    var x, y := PathKeys(p) + s, PathKeys(q) + t;
    if |p| <= 1 && |q| <= 1 {
      ShortPathsByKeys(p, q, s, t);
    } else if p != [] && q != [] {
      PathsByKeys(p[1..], q[1..], s, t);
      assert |p| > 1 ==> x[1..] == PathKeys(p[1..]) + s;
      assert |q| > 1 ==> y[1..] == PathKeys(q[1..]) + t;
      if |p| == 1 {
        assert x[1] == End && y[1] == Index(q[1].index);
      } else if |q| == 1 {
        assert x[1] == Index(p[1].index) && y[1] == End;
      }
    }
  }

  lemma ShortPathsByKeys(p: Path, q: Path, s: seq<Key>, t: seq<Key>)
    requires |p| <= 1 && |q| <= 1
    ensures CompareKeys(PathKeys(p) + s, PathKeys(q) + t) == if ComparePath(p, q) != 0 then ComparePath(p, q) else CompareKeys(s, t)
    ensures Matched(s, t) ==> Matched(PathKeys(p) + s, PathKeys(q) + t)
  {
    if p == [] && q == [] {
      EndsByKeys(None, None, s, t);
    } else if p != [] && q != [] {
      var x, y := PathKeys(p) + s, PathKeys(q) + t;
      assert x[1..] == [End, Final(p[0].offset)] + s && y[1..] == [End, Final(q[0].offset)] + t;
      EndsByKeys(p[0].offset, q[0].offset, s, t);
    }
  }

  lemma EndsByKeys(m: Option<Number>, n: Option<Number>, s: seq<Key>, t: seq<Key>)
    ensures CompareKeys([End, Final(m)] + s, [End, Final(n)] + t) ==
            if OffsetGreater(m, n) then 1 else if OffsetGreater(n, m) then -1 else CompareKeys(s, t)
    ensures Matched(s, t) ==> Matched([End, Final(m)] + s, [End, Final(n)] + t)
  {
    var x, y := [End, Final(m)] + s, [End, Final(n)] + t;
    assert x[1..] == [Final(m)] + s && y[1..] == [Final(n)] + t;
    assert x[1..][1..] == s && y[1..][1..] == t;
  }

  lemma {:induction false} PathListsByKeys(a: seq<Path>, b: seq<Path>, i: nat, n: nat, s: seq<Key>, t: seq<Key>)
    requires |a| <= n && |b| <= n
    ensures CompareKeys(KeysThen(a, i, n, s), KeysThen(b, i, n, t)) ==
            if ComparePathsFrom(a, b, i) != 0 then ComparePathsFrom(a, b, i) else CompareKeys(s, t)
    ensures Matched(s, t) ==> Matched(KeysThen(a, i, n, s), KeysThen(b, i, n, t))
    decreases n - i
  {
    hide ComparePath, CompareKeys, PathKeys, Matched;
    if i < n {
      PathsByKeys(PathOr(a, i), PathOr(b, i), KeysThen(a, i + 1, n, s), KeysThen(b, i + 1, n, t));
      PathListsByKeys(a, b, i + 1, n, s, t);
      NothingToCompare(a, b, i);
    }
  }

  /** Comparing two identifiers is comparing their keys. */
  lemma CompareByKeys(a: Cfi, b: Cfi, n: nat)
    requires Proper(a) && Proper(b) && IsWide(a, n) && IsWide(b, n)
    ensures CompareCfi(a, b) == CompareKeys(Keys(a, n), Keys(b, n))
    ensures Matched(Keys(a, n), Keys(b, n))
  {
    hide CompareKeys, Matched, KeysThen, ComparePathsFrom, Collapse;
    var (a1, b1) := (Collapse(a, true), Collapse(b, true));
    PathListsByKeys(Collapse(a, false), Collapse(b, false), 0, n, KeysThen(a1, 0, n, []), KeysThen(b1, 0, n, []));
    PathListsByKeys(a1, b1, 0, n, [], []);
    NoKeys();
  }

  lemma NoKeys()
    ensures CompareKeys([], []) == 0 && Matched([], [])
  {
  }

  // ----- Three identifiers

  /** The middle key is not a number or missing, and ties with two of its kind that differ. */
  predicate Floats(x: Key, w: Key, y: Key) {
    match (x, w, y)
    case (Index(m), Index(open), Index(n)) => open.NaN? && Greater(n, m)
    case (Final(m), Final(open), Final(n)) => (open == None || open == Some(NaN)) && OffsetGreater(n, m)
    case _ => false
  }

  predicate AllTie(x: Key, y: Key, z: Key) {
    KeyCompare(x, y) == 0 && KeyCompare(y, z) == 0 && KeyCompare(x, z) == 0
  }

  /** The first place where some two of three differ. */
  function Split(s: seq<Key>, t: seq<Key>, u: seq<Key>): (k: nat)
    ensures k <= |s| && k <= |t| && k <= |u|
    decreases |s|
  {
    if s == [] || t == [] || u == [] || !AllTie(s[0], t[0], u[0]) then 0 else 1 + Split(s[1..], t[1..], u[1..])
  }

  predicate Tied(s: seq<Key>, t: seq<Key>, k: nat) {
    k == |s| == |t| && CompareKeys(s, t) == 0
  }

  /** What follows place `k`. */
  function After(s: seq<Key>, t: seq<Key>, k: nat): int
    requires k < |s| && k < |t|
  {
    CompareKeys(s[k + 1..], t[k + 1..])
  }

  predicate DecidedFrom(s: seq<Key>, t: seq<Key>, k: nat) {
    && k < |s| && k < |t|
    && CompareKeys(s, t) == if KeyCompare(s[k], t[k]) != 0 then KeyCompare(s[k], t[k]) else After(s, t, k)
  }

  lemma {:induction false} SplitDecides(s: seq<Key>, t: seq<Key>, u: seq<Key>)
    requires Matched(s, t) && Matched(t, u) && Matched(s, u)
    ensures var k := Split(s, t, u);
            || (Tied(s, t, k) && Tied(t, u, k) && Tied(s, u, k))
            || (DecidedFrom(s, t, k) && DecidedFrom(t, u, k) && DecidedFrom(s, u, k) && !AllTie(s[k], t[k], u[k]))
    decreases |s|
  {
    if s != [] && t != [] && u != [] && AllTie(s[0], t[0], u[0]) {
      SplitDecides(s[1..], t[1..], u[1..]);
      var k := Split(s, t, u);
      assert k < |s| ==> s[1..][k - 1] == s[k] && s[1..][k..] == s[k + 1..];
      assert k < |t| ==> t[1..][k - 1] == t[k] && t[1..][k..] == t[k + 1..];
      assert k < |u| ==> u[1..][k - 1] == u[k] && u[1..][k..] == u[k + 1..];
    }
  }

  predicate FloatsAt(x: seq<Key>, w: seq<Key>, y: seq<Key>, k: nat) {
    k < |x| && k < |w| && k < |y| && Floats(x[k], w[k], y[k])
  }

  // ----- When the laws fail

  /** `s` is not after `t`, nor `t` after `u`, but `s` is after `u`. */
  predicate BreaksOrder(s: seq<Key>, t: seq<Key>, u: seq<Key>, k: nat) {
    || (FloatsAt(u, t, s, k) && After(s, t, k) <= 0 && After(t, u, k) <= 0)
    || (FloatsAt(s, u, t, k) && After(t, u, k) <= 0 && After(u, s, k) < 0)
    || (FloatsAt(t, s, u, k) && After(s, t, k) <= 0 && After(u, s, k) < 0)
  }

  /** `s` is before `t`, and `t` before `u`, but `s` is not before `u`. */
  predicate BreaksStrictOrder(s: seq<Key>, t: seq<Key>, u: seq<Key>, k: nat) {
    || (FloatsAt(u, t, s, k) && After(s, t, k) < 0 && After(t, u, k) < 0)
    || (FloatsAt(s, u, t, k) && After(t, u, k) < 0 && After(u, s, k) <= 0)
    || (FloatsAt(t, s, u, k) && After(s, t, k) < 0 && After(u, s, k) <= 0)
  }

  /** One of two steps is strict, and the other one is not downward, but `s` is not before `u`. */
  predicate LosesStrictness(s: seq<Key>, t: seq<Key>, u: seq<Key>, k: nat) {
    || (FloatsAt(u, t, s, k) && After(s, t, k) <= 0 && After(t, u, k) <= 0 && (After(s, t, k) < 0 || After(t, u, k) < 0))
    || (FloatsAt(s, u, t, k) && After(t, u, k) <= 0 && After(u, s, k) <= 0)
    || (FloatsAt(t, s, u, k) && After(s, t, k) <= 0 && After(u, s, k) <= 0)
  }

  /** Two ties, and no third. */
  predicate BreaksTies(s: seq<Key>, t: seq<Key>, u: seq<Key>, k: nat) {
    (FloatsAt(s, t, u, k) || FloatsAt(u, t, s, k)) && After(s, t, k) == 0 && After(t, u, k) == 0
  }

  lemma KeysAreTransitiveIff(s: seq<Key>, t: seq<Key>, u: seq<Key>)
    requires Matched(s, t) && Matched(t, u) && Matched(s, u)
    ensures var (k, x, y, z) := (Split(s, t, u), CompareKeys(s, t), CompareKeys(t, u), CompareKeys(s, u));
            && ((x <= 0 && y <= 0 ==> z <= 0) <==> !BreaksOrder(s, t, u, k))
            && ((x < 0 && y < 0 ==> z < 0) <==> !BreaksStrictOrder(s, t, u, k))
            && ((x <= 0 && y <= 0 && (x < 0 || y < 0) ==> z < 0) <==> !LosesStrictness(s, t, u, k))
            && ((x == 0 && y == 0 ==> z == 0) <==> !BreaksTies(s, t, u, k))
  {
    hide Matched, Split, CompareKeys, KeyCompare, Floats;
    SplitDecides(s, t, u);
    var k := Split(s, t, u);
    KeysAntisymmetric(s, u);
    if k < |s| && k < |t| && k < |u| {
      SplitKeys(s[k], t[k], u[k]);
      KeysAntisymmetric(s[k + 1..], u[k + 1..]);
    }
  }

  lemma {:induction false} KeysAntisymmetric(s: seq<Key>, t: seq<Key>)
    ensures CompareKeys(s, t) == -CompareKeys(t, s)
    decreases |s|
  {
    if s != [] && t != [] {
      KeysAntisymmetric(s[1..], t[1..]);
    }
  }

  /** Three keys, not all tied: two decide the third, unless one of them floats. */
  lemma SplitKeys(x: Key, y: Key, z: Key)
    ensures var (a, b, c) := (KeyCompare(x, y), KeyCompare(y, z), KeyCompare(x, z));
            && (Floats(x, y, z) <==> a == 0 && b == 0 && c < 0)
            && (Floats(z, y, x) <==> a == 0 && b == 0 && c > 0)
            && (Floats(x, z, y) <==> a < 0 && b == 0 && c == 0)
            && (Floats(y, z, x) <==> a > 0 && b == 0 && c == 0)
            && (Floats(y, x, z) <==> a == 0 && b < 0 && c == 0)
            && (Floats(z, x, y) <==> a == 0 && b > 0 && c == 0)
            && (a <= 0 && b <= 0 ==> c <= 0 || Floats(z, y, x))
            && (a < 0 && b < 0 ==> c < 0)
            && (a < 0 && b == 0 ==> c < 0 || Floats(x, z, y))
            && (a == 0 && b < 0 ==> c < 0 || Floats(y, x, z))
  {
  }

  /** For all identifiers, ranges and unnumbered steps included: each of the four laws of a total preorder fails exactly
      when, at the first place where some two of the three differ, the third has no number, and what follows does not
      put it right. */
  lemma CompareIsTransitiveIff(a: Cfi, b: Cfi, c: Cfi, n: nat)
    requires Proper(a) && Proper(b) && Proper(c) && IsWide(a, n) && IsWide(b, n) && IsWide(c, n)
    ensures var (s, t, u) := (Keys(a, n), Keys(b, n), Keys(c, n));
            var (k, x, y, z) := (Split(s, t, u), CompareCfi(a, b), CompareCfi(b, c), CompareCfi(a, c));
            && ((x <= 0 && y <= 0 ==> z <= 0) <==> !BreaksOrder(s, t, u, k))
            && ((x < 0 && y < 0 ==> z < 0) <==> !BreaksStrictOrder(s, t, u, k))
            && ((x <= 0 && y <= 0 && (x < 0 || y < 0) ==> z < 0) <==> !LosesStrictness(s, t, u, k))
            && ((x == 0 && y == 0 ==> z == 0) <==> !BreaksTies(s, t, u, k))
  {
    hide Keys, Matched, Split, CompareKeys, CompareCfi, BreaksOrder, BreaksStrictOrder, LosesStrictness, BreaksTies, IsWide;
    CompareByKeys(a, b, n);
    CompareByKeys(b, c, n);
    CompareByKeys(a, c, n);
    KeysAreTransitiveIff(Keys(a, n), Keys(b, n), Keys(c, n));
  }

  // ----- Identifiers for which they fail

  function PlainStep(index: Number, offset: Option<nat>): Part {
    Part(index, "", if offset.Some? then Some(Num(offset.value)) else None, "", [], [], "")
  }

  /** A step without a number, which a slash without digits is read as, ties with all others. */
  lemma NaNIndexBreaksTies()
    ensures var a, b, c := Point([[PlainStep(Num(2), None)]]), Point([[PlainStep(NaN, None)]]), Point([[PlainStep(Num(4), None)]]);
            CompareCfi(a, b) == 0 && CompareCfi(b, c) == 0 && CompareCfi(a, c) == -1
  {
    SingleStep(PlainStep(Num(2), None), PlainStep(NaN, None));
    SingleStep(PlainStep(NaN, None), PlainStep(Num(4), None));
    SingleStep(PlainStep(Num(2), None), PlainStep(Num(4), None));
  }

  /** So does a missing offset: ties are lost, and strictness is. */
  lemma MissingOffsetBreaksTies()
    ensures var a, b, c := Point([[PlainStep(Num(3), Some(1))]]), Point([[PlainStep(Num(3), None)]]), Point([[PlainStep(Num(3), Some(2))]]);
            && CompareCfi(a, b) == 0 && CompareCfi(b, c) == 0 && CompareCfi(a, c) == -1
            && CompareCfi(c, b) == 0
  {
    SingleStep(PlainStep(Num(3), Some(1)), PlainStep(Num(3), None));
    SingleStep(PlainStep(Num(3), None), PlainStep(Num(3), Some(2)));
    SingleStep(PlainStep(Num(3), Some(2)), PlainStep(Num(3), None));
    SingleStep(PlainStep(Num(3), Some(1)), PlainStep(Num(3), Some(2)));
  }

  lemma SingleStep(p: Part, q: Part)
    ensures CompareCfi(Point([[p]]), Point([[q]])) == ComparePath([p], [q])
  {
    assert ComparePathsFrom([[p]], [[q]], 0) == ComparePath([p], [q]);
  }

  /** Past an indirection, three identifiers can each be before the next one. */
  lemma CompareCanGoInCircles()
    ensures var a := Point([[PlainStep(Num(3), Some(2))], [PlainStep(Num(2), None)]]);
            var b := Point([[PlainStep(Num(3), None)], [PlainStep(Num(4), None)]]);
            var c := Point([[PlainStep(Num(3), Some(1))], [PlainStep(Num(6), None)]]);
            CompareCfi(a, b) == -1 && CompareCfi(b, c) == -1 && CompareCfi(c, a) == -1
  {
    TwoSteps(PlainStep(Num(3), Some(2)), PlainStep(Num(2), None), PlainStep(Num(3), None), PlainStep(Num(4), None));
    TwoSteps(PlainStep(Num(3), None), PlainStep(Num(4), None), PlainStep(Num(3), Some(1)), PlainStep(Num(6), None));
    TwoSteps(PlainStep(Num(3), Some(1)), PlainStep(Num(6), None), PlainStep(Num(3), Some(2)), PlainStep(Num(2), None));
  }

  lemma TwoSteps(p: Part, p': Part, q: Part, q': Part)
    ensures CompareCfi(Point([[p], [p']]), Point([[q], [q']])) ==
            if ComparePath([p], [q]) != 0 then ComparePath([p], [q]) else ComparePath([p'], [q'])
  {
    var a, b := [[p], [p']], [[q], [q']];
    assert ComparePathsFrom(a, b, 1) == ComparePath([p'], [q']);
    assert ComparePathsFrom(a, b, 0) == if ComparePath([p], [q]) != 0 then ComparePath([p], [q]) else ComparePathsFrom(a, b, 1);
  }
}
