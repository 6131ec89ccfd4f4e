/** The range of the document that an identifier selects: its two resolved ends as boundary points. */
module CfiSelection {
  import opened Wrappers
  import opened CfiSyntax
  import opened CfiRange
  import opened CfiDom
  import opened CfiPositions
  import opened CfiResolve
  import opened CfiOrder
  import opened CfiDocument

  // ----- Boundary points

  /** A place before a child or a character of a node, or next to the document element. */
  datatype Boundary = Inside(path: seq<nat>, offset: nat) | Outside(after: bool)

  datatype DomRange = DomRange(start: Boundary, end: Boundary)

  /** Tree order: a place in a node is before everything in the children that follow it. */
  predicate InsideBefore(p: seq<nat>, x: nat, q: seq<nat>, y: nat)
    decreases p
  {
    if p == [] && q == [] then x < y
    else if p == [] then x <= q[0]
    else if q == [] then p[0] < y
    else if p[0] != q[0] then p[0] < q[0]
    else InsideBefore(p[1..], x, q[1..], y)
  }

  predicate IsBefore(a: Boundary, b: Boundary) {
    match (a, b)
    case (Inside(p, x), Inside(q, y)) => InsideBefore(p, x, q, y)
    case (Inside(_, _), Outside(after)) => after
    case (Outside(after), Inside(_, _)) => !after
    case (Outside(x), Outside(y)) => !x && y
  }

  /** The children of an element, or the characters of a text; of a comment only the start is ever asked for. */
  function NodeLength(n: Node): nat {
    match n
    case Text(data) => |data|
    case Elem(_, children) => |children|
    case Other => 0
  }

  /** An offset as a DOM method takes it: a 32-bit number, zero when there is none. */
  function Coerced(offset: Option<Number>): nat {
    if offset.Some? && offset.value.Num? then offset.value.n % 0x1_0000_0000 else 0
  }

  /** The boundary point of a resolved end; there is none for a missing node or an offset past the node's end. */
  function BoundaryOf(root: Node, t: Target): Result<Boundary> {
    match t
    case Missing => Thrown
    case BeforeNode(path) => if path == [] then Success(Outside(false)) else Success(Inside(path[..|path| - 1], path[|path| - 1]))
    case AfterNode(path) => if path == [] then Success(Outside(true)) else Success(Inside(path[..|path| - 1], path[|path| - 1] + 1))
    case Found(path, offset) =>
      if path == None || Coerced(offset) > NodeLength(NodeAt(root, path.value)) then Thrown
      else Success(Inside(path.value, Coerced(offset)))
  }

  /** A new range is empty, at the start of the document. Setting its start past its end moves the end there, and setting
      its end before its start moves the start. */
  function RangeBetween(start: Boundary, end: Boundary): DomRange {
    DomRange(if IsBefore(end, start) then end else start, end)
  }

  function RangeAt(root: Node, c: Cfi): Result<DomRange>
    requires Proper(c)
  {
    var start :- Resolve(root, Collapse(c, false)[0]);
    var end :- Resolve(root, Collapse(c, true)[0]);
    var from :- BoundaryOf(root, start);
    var to :- BoundaryOf(root, end);
    Success(RangeBetween(from, to))
  }

  class Range {
    var start: Boundary
    var end: Boundary

    constructor ()
      ensures start == end == Outside(false)
    {
      start, end := Outside(false), Outside(false);
    }

    method SetStart(b: Boundary)
      modifies this
      ensures start == b && end == if IsBefore(old(end), b) then b else old(end)
    {
      if IsBefore(end, b) {
        end := b;
      }
      start := b;
    }

    method SetEnd(b: Boundary)
      modifies this
      ensures end == b && start == if IsBefore(b, old(start)) then b else old(start)
    {
      if IsBefore(b, start) {
        start := b;
      }
      end := b;
    }
  }

  method ToRange(root: Node, c: Cfi) returns (r: Result<DomRange>)
    requires Proper(c)
    ensures r == RangeAt(root, c)
  {
    hide Resolve, Collapse, IsBefore;
    var start :- PartsToNode(root, Collapse(c, false)[0]);
    var end :- PartsToNode(root, Collapse(c, true)[0]);
    var range := new Range();
    var from :- BoundaryOf(root, start);
    range.SetStart(from);
    var to :- BoundaryOf(root, end);
    range.SetEnd(to);
    r := Success(DomRange(range.start, range.end));
  }

  /** The virtual elements of a node are its two sides in its parent, or in the document: the first is before everything in
      the node and behind everything in the children before it, and the second the other way round. */
  lemma SidesOfNode(root: Node, parent: seq<nat>, k: nat, below: seq<nat>, x: nat)
    ensures BoundaryOf(root, BeforeNode(parent + [k])) == Success(Inside(parent, k))
    ensures BoundaryOf(root, AfterNode(parent + [k])) == Success(Inside(parent, k + 1))
    ensures BoundaryOf(root, BeforeNode([])) == Success(Outside(false)) && BoundaryOf(root, AfterNode([])) == Success(Outside(true))
    ensures IsBefore(Inside(parent, k), Inside(parent + [k] + below, x)) && IsBefore(Inside(parent + [k] + below, x), Inside(parent, k + 1))
    ensures IsBefore(Outside(false), Inside(below, x)) && IsBefore(Inside(below, x), Outside(true))
  {
    assert (parent + [k])[..|parent|] == parent;
    assert parent + [k] + below == parent + ([k] + below);
    InsideChild(parent, k, [k] + below, x);
    InsideChild(parent, k + 1, [k] + below, x);
  }

  lemma {:induction false} InsideChild(parent: seq<nat>, y: nat, below: seq<nat>, x: nat)
    requires below != []
    ensures InsideBefore(parent, y, parent + below, x) <==> y <= below[0]
    ensures InsideBefore(parent + below, x, parent, y) <==> below[0] < y
    decreases |parent|
  {
    if parent == [] {
      assert parent + below == below;
    } else {
      assert (parent + below)[1..] == parent[1..] + below;
      InsideChild(parent[1..], y, below, x);
    }
  }

  // ----- The range of a text selection

  /** Between text positions, the tree order of boundary points is that of their paths and offsets. */
  lemma {:induction false} TreeOrderOfTexts(root: Node, a: Position, b: Position)
    requires IsTextPosition(root, a) && IsTextPosition(root, b)
    ensures InsideBefore(a.path, a.offset, b.path, b.offset) <==> LexLess(a.path + [a.offset], b.path + [b.offset])
    decreases |a.path|
  {
    hide NodeAt, IsPath;
    FirstChild(root, a);
    FirstChild(root, b);
    var (p, q) := (a.path, b.path);
    assert p + [a.offset] == [p[0]] + (p[1..] + [a.offset]) && q + [b.offset] == [q[0]] + (q[1..] + [b.offset]);
    if p[0] == q[0] {
      LexLessCons(p[1..] + [a.offset], q[1..] + [b.offset], p[0]);
      if |p| == 1 {
        assert p[1..] == [] && q[1..] == [];
        assert [] + [a.offset] == [a.offset] && [] + [b.offset] == [b.offset];
        LexLessOne(a.offset, b.offset);
      } else {
        PointPartsBelow(root, a);
        PointPartsBelow(root, b);
        TreeOrderOfTexts(root.children[p[0]], Below(a), Below(b));
      }
    }
  }

  lemma LexLessOne(x: nat, y: nat)
    ensures LexLess([x], [y]) <==> x < y
  {
    assert [x][1..] == [] && [y][1..] == [];
  }

  lemma SameTwice(root: Node, a: Position, b: Position, c: Position)
    requires IsTextPosition(root, a) && IsTextPosition(root, b) && IsTextPosition(root, c)
    requires SamePoint(root, a, b)
    ensures DocumentOrder(root, b, a) == 0
    ensures DocumentOrder(root, a, c) == DocumentOrder(root, b, c)
    ensures DocumentOrder(root, c, a) == DocumentOrder(root, c, b)
  {
    hide SamePoint, IsTextPosition, ComparePath;
    var (p, q, r) := (PointParts(root, a), PointParts(root, b), PointParts(root, c));
    CompareIsDocumentOrder(root, a, b);
    CompareIsDocumentOrder(root, b, a);
    CompareIsDocumentOrder(root, a, c);
    CompareIsDocumentOrder(root, b, c);
    CompareIsDocumentOrder(root, c, a);
    CompareIsDocumentOrder(root, c, b);
    PointsAreOrderly(root, a);
    PointsAreOrderly(root, b);
    PointsAreOrderly(root, c);
    ComparePathAntisymmetric(p, q);
    ComparePathAntisymmetric(p, r);
    ComparePathAntisymmetric(q, r);
    TiesCompareAlike(p, q, r);
  }

  lemma TiesCompareAlike(p: Path, q: Path, r: Path)
    requires Orderly(p) && Orderly(q) && Orderly(r) && ComparePath(p, q) == 0
    ensures ComparePath(p, r) == ComparePath(q, r)
  {
    hide ComparePath, Orderly;
    ComparePathAntisymmetric(p, q);
    ComparePathAntisymmetric(p, r);
    ComparePathAntisymmetric(q, r);
    if ComparePath(p, r) <= 0 {
      ComparePathTransitive(q, p, r);
    }
    if ComparePath(q, r) <= 0 {
      ComparePathTransitive(p, q, r);
    }
    if ComparePath(r, p) <= 0 {
      ComparePathTransitive(r, p, q);
    }
    if ComparePath(r, q) <= 0 {
      ComparePathTransitive(r, q, p);
    }
  }

  lemma {:induction false} PointsAreOrderly(root: Node, p: Position)
    requires IsTextPosition(root, p)
    ensures Orderly(PointParts(root, p))
    decreases |p.path|
  {
    hide NodeAt, IsPath, ElemsBefore, CharsBefore;
    var parent, k := ParentOf(root, p.path), p.path[|p.path| - 1];
    assert p.path == parent + [k];
    PartsOfAppend(root, parent, k, Some(p.offset));
    var children := NodeAt(root, parent).children;
    IndicesAreNumbers(root, parent);
    assert children[k].Text?;
    assert (2 * ElemsBefore(children, k) + 1) % 2 == 1;
  }

  lemma {:induction false} IndicesAreNumbers(root: Node, path: seq<nat>)
    requires IsPath(root, path)
    ensures forall k :: 0 <= k < |path| ==> PartsOf(root, path, None)[k].index.Num?
    decreases path
  {
    hide ElemsBefore, CharsBefore, NodeAt;
    if path != [] {
      PartsOfCons(root, path, None);
      IndicesAreNumbers(root.children[path[0]], path[1..]);
    }
  }

  /** Whether one boundary point is before another follows from the document order of their positions, but for points that
      are one and the same. */
  lemma OrderOfPoints(root: Node, a: Position, b: Position)
    requires IsTextPosition(root, a) && IsTextPosition(root, b)
    ensures DocumentOrder(root, a, b) < 0 ==> !InsideBefore(b.path, b.offset, a.path, a.offset)
    ensures DocumentOrder(root, a, b) > 0 ==> InsideBefore(b.path, b.offset, a.path, a.offset)
  {
    hide InsideBefore, LexLess, IsTextPosition;
    TreeOrderOfTexts(root, b, a);
    var (x, y) := (a.path + [a.offset], b.path + [b.offset]);
    LexLessTotal(x, y);
    LexLessTotal(y, x);
    if x == y {
      assert a.path == x[..|x| - 1] == y[..|y| - 1] == b.path && a.offset == x[|x| - 1] == b.offset;
      SameAsItself(root, a);
    }
  }

  lemma SameAsItself(root: Node, a: Position)
    requires IsTextPosition(root, a)
    ensures SamePoint(root, a, a)
  {
    hide NodeAt, IsPath;
    var parent, k := ParentOf(root, a.path), a.path[|a.path| - 1];
  }

  ghost predicate PointsTo(root: Node, b: Boundary, p: Position)
    requires IsTextPosition(root, p)
  {
    && b.Inside? && IsTextPosition(root, Position(b.path, b.offset))
    && SamePoint(root, Position(b.path, b.offset), p)
  }

  /** No text is longer than an offset can say. */
  ghost predicate TextsFit(root: Node) {
    forall path :: IsPath(root, path) && NodeAt(root, path).Text? ==> |NodeAt(root, path).data| < 0x1_0000_0000
  }

  lemma BoundaryLands(root: Node, t: Target, p: Position)
    requires IsTextPosition(root, p) && Lands(root, t, p) && TextsFit(root)
    ensures BoundaryOf(root, t).Success? && PointsTo(root, BoundaryOf(root, t).value, p)
  {
    hide SamePoint, NodeAt, IsPath;
  }

  lemma OrderedEnds(root: Node, from: Boundary, to: Boundary, start: Position, end: Position)
    requires IsTextPosition(root, start) && IsTextPosition(root, end) && PointsTo(root, from, start) && PointsTo(root, to, end)
    ensures var r := RangeBetween(from, to);
            && PointsTo(root, r.start, if DocumentOrder(root, start, end) > 0 then end else start)
            && PointsTo(root, r.end, end)
  {
    hide SamePoint, IsTextPosition, InsideBefore, LexLess;
    var (s, e) := (Position(from.path, from.offset), Position(to.path, to.offset));
    OrderOfPoints(root, s, e);
    SameTwice(root, s, start, end);
    SameTwice(root, e, end, s);
    SameTwice(root, e, end, start);
    if SamePoint(root, start, end) {
      SameTwice(root, start, end, start);
    }
  }

  /** The range that is made from a selection's text points to its two ends; when they are given in the wrong order, it is
      empty, at the second. */
  lemma SelectionRoundTrip(root: Node, start: Position, end: Position)
    requires IsTextPosition(root, start) && IsTextPosition(root, end) && TextsFit(root)
    ensures SelectionCfi(root, start, end).Success?
    ensures var parsed := Parse(ToString(SelectionCfi(root, start, end).value));
            && parsed.Success? && Proper(parsed.value)
            && var r := RangeAt(root, parsed.value);
               && r.Success?
               && PointsTo(root, r.value.start, if DocumentOrder(root, start, end) > 0 then end else start)
               && PointsTo(root, r.value.end, end)
  {
    hide Lands, Resolve, RangeCfi, SelectionCfi, ToString, Parse;
    hide IsTextPosition, TextsFit, PointsTo, BoundaryOf, RangeBetween, DocumentOrder;
    SelectionOfText(root, start, end);
    RangeRoundTrip(root, start, end);
    var c := Parse(ToString(RangeCfi(root, start, end))).value;
    var s, e := Resolve(root, Collapse(c, false)[0]).value, Resolve(root, Collapse(c, true)[0]).value;
    BoundaryLands(root, s, start);
    BoundaryLands(root, e, end);
    OrderedEnds(root, BoundaryOf(root, s).value, BoundaryOf(root, e).value, start, end);
  }
}
