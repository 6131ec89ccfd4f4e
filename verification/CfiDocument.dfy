/** Identifiers for the ranges and elements of a document: from the tree to text and back. */
module CfiDocument {
  import opened Wrappers
  import opened CfiSyntax
  import opened CfiPrintable
  import opened CfiRoundTrip
  import opened CfiRange
  import opened CfiDom
  import opened CfiPositions
  import opened CfiResolve
  import opened CfiOrder
  import opened CfiIds

  // ----- Ranges

  /** The identifier of a selection: a point when it is collapsed. */
  function RangeCfi(root: Node, start: Position, end: Position): (c: Cfi)
    requires IsTextPosition(root, start) && IsTextPosition(root, end)
    ensures Proper(c)
  {
    if start == end then Point([PointParts(root, start)])
    else RangeOf([PointParts(root, start)], [PointParts(root, end)])
  }

  /** The parts of an end of a selection, whatever node contains it: those of the parent for a comment, which is not
      indexed. The document element has no parts, as the document has no parent. */
  function EndParts(root: Node, p: Position): Result<Path>
    requires IsPath(root, p.path)
  {
    if p.path == [] then Thrown
    else if !NodeAt(root, p.path).Other? then Success(PartsOf(root, p.path, Some(p.offset)))
    else
      var parent := ParentOf(root, p.path);
      if HasContent(ChildrenAt(root, parent)) then Success(PartsOf(root, parent, None)) else Thrown
  }

  function ParentOf(root: Node, path: seq<nat>): (parent: seq<nat>)
    requires path != [] && IsPath(root, path)
    ensures IsPath(root, parent) && NodeAt(root, parent).Elem? && path[|path| - 1] < |NodeAt(root, parent).children|
    ensures NodeAt(root, path) == NodeAt(root, parent).children[path[|path| - 1]]
  {
    var parent, k := path[..|path| - 1], path[|path| - 1];
    assert path == parent + [k];
    PathAppend(root, parent, k);
    parent
  }

  function SelectionCfi(root: Node, start: Position, end: Position): Result<Cfi>
    requires IsPath(root, start.path) && IsPath(root, end.path)
  {
    var from :- EndParts(root, start);
    if start == end then Success(Point([from])) else
    var to :- EndParts(root, end);
    Success(RangeOf([from], [to]))
  }

  lemma SelectionOfText(root: Node, start: Position, end: Position)
    requires IsTextPosition(root, start) && IsTextPosition(root, end)
    ensures SelectionCfi(root, start, end) == Success(RangeCfi(root, start, end))
  {
    hide PartsOf, RangeOf;
  }

  method EndToParts(root: Node, p: Position) returns (parts: Result<Path>)
    requires IsPath(root, p.path)
    ensures parts == EndParts(root, p)
  {
    hide PartsOf, NodeAt, IsPath, Indexed;
    if p.path == [] {
      return Thrown;
    }
    var parent, k := ParentOf(root, p.path), p.path[|p.path| - 1];
    var children := ChildrenAt(root, parent);
    if children[k].Other? {
      if forall i :: 0 <= i < |children| ==> children[i].Other? {
        return Thrown;
      }
      var indexed := IndexChildNodes(children);
      CommentIsNotFound(children, k);
      assert FindEntry(indexed, k) == -1;
      if parent == [] {
        EmptyPathHasNoParts(root);
        return Success([]);
      }
      var before := NodeToParts(root, parent, None);
      return Success(before);
    }
    var all := NodeToParts(root, p.path, Some(p.offset));
    parts := Success(all);
  }

  method FromRange(root: Node, start: Position, end: Position) returns (cfi: Result<string>)
    requires IsPath(root, start.path) && IsPath(root, end.path)
    ensures var c := SelectionCfi(root, start, end);
            cfi == if c.Thrown? then Thrown else Success(ToString(c.value))
  {
    hide ToString, IsPath, EndParts, RangeOf;
    var startParts :- EndToParts(root, start);
    if start == end {
      return Success(ToString(Point([startParts])));
    }
    var endParts :- EndToParts(root, end);
    var text := BuildRange(Point([startParts]), Point([endParts]));
    cfi := Success(text);
  }

  lemma {:induction false} PartsArePrintable(root: Node, path: seq<nat>, offset: Option<nat>)
    requires IsPath(root, path) && (offset.Some? ==> path != [] && NodeAt(root, path).Text?)
    ensures ReadablePath(PartsOf(root, path, offset)) && PrintablePath(PartsOf(root, path, offset))
    decreases path
  {
    hide Readable, Printable, PartOf, PartsOf, NodeAt;
    if path == [] {
      EmptyPathHasNoParts(root);
      assert offset == None;
    } else {
      var first := if |path| == 1 then offset else None;
      PartsOfCons(root, path, offset);
      NextNode(root, path);
      PartIsPrintable(root.children, path[0], first);
      PartsArePrintable(root.children[path[0]], path[1..], if |path| == 1 then None else offset);
      if |path| == 1 {
        NoFurtherParts(root.children[path[0]], offset);
      }
    }
  }

  lemma NextNode(root: Node, path: seq<nat>)
    requires path != [] && IsPath(root, path)
    ensures IsPath(root.children[path[0]], path[1..])
    ensures NodeAt(root, path) == NodeAt(root.children[path[0]], path[1..])
    ensures |path| == 1 ==> NodeAt(root, path) == root.children[path[0]]
  {
    if |path| == 1 {
      assert path[1..] == [];
    }
  }

  lemma NoFurtherParts(n: Node, offset: Option<nat>)
    ensures IsPath(n, []) && PartsOf(n, [], offset) == PartsOf(n, [], None) == []
  {
  }

  lemma PartIsPrintable(children: seq<Node>, k: nat, offset: Option<nat>)
    requires k < |children| && (offset.Some? ==> children[k].Text?)
    ensures Readable(PartOf(children, k, offset)) && Printable(PartOf(children, k, offset))
  {
  }

  lemma PointIsPrintable(root: Node, p: Position)
    requires IsTextPosition(root, p)
    ensures PrintablyReadable([PointParts(root, p)])
  {
    hide ReadablePath, PrintablePath, NodeAt, IsPath, PartsOf;
    PartsArePrintable(root, p.path, Some(p.offset));
  }

  /** Position round trip: printed, parsed again and resolved, every text position comes back as the same point. */
  lemma PositionRoundTrip(root: Node, p: Position)
    requires IsTextPosition(root, p)
    ensures var c := Point([PointParts(root, p)]);
            && Parse(ToString(c)) == Success(c)
            && var t := Resolve(root, c.paths[0]); t.Success? && Lands(root, t.value, p)
  {
    hide Lands, Resolve, ToString, Parse, PrintablyReadable, PointParts, IsTextPosition;
    PointIsPrintable(root, p);
    PointComesBack(PointParts(root, p));
    ResolvePointParts(root, p);
  }

  lemma PointComesBack(path: Path)
    requires PrintablyReadable([path])
    ensures Parse(ToString(Point([path]))) == Success(Point([path]))
  {
    hide ToString, Parse, ReadablePaths, PrintablePaths;
    PlainRoundTripIffPrintable(Point([path]));
  }

  lemma SharedLengthCons(p: Path, q: Path)
    requires SharedLength(p, q) > 0
    ensures SharedLength(p, q) == 1 + SharedLength(p[1..], q[1..])
    ensures p[0] == q[0] && p[1..][..SharedLength(p, q) - 1] == q[1..][..SharedLength(p, q) - 1] ==>
              p[..SharedLength(p, q)] == q[..SharedLength(p, q)]
  {
  }

  lemma PointPartsBelow(root: Node, p: Position)
    requires IsTextPosition(root, p) && |p.path| > 1
    ensures root.Elem? && p.path[0] < |root.children| && IsTextPosition(root.children[p.path[0]], Below(p))
    ensures PointParts(root, p)[1..] == PointParts(root.children[p.path[0]], Below(p))
  {
  }

  /** In one document, steps with the same indices are the same parts, as long as no offset is counted. */
  lemma {:induction false} SharedPartsAgree(root: Node, a: Position, b: Position)
    requires IsTextPosition(root, a) && IsTextPosition(root, b)
    ensures var (p, q) := (PointParts(root, a), PointParts(root, b));
            p[..SharedLength(p, q)] == q[..SharedLength(p, q)]
    decreases |a.path|
  {
    hide SharedLength, NodeAt, IsPath, PartsOf;
    var (p, q) := (PointParts(root, a), PointParts(root, b));
    if SharedLength(p, q) > 0 {
      SharedFirstPart(root, a, b);
      SharedLengthCons(p, q);
      if |a.path| > 1 {
        PointPartsBelow(root, a);
        PointPartsBelow(root, b);
        SharedPartsAgree(root.children[a.path[0]], Below(a), Below(b));
      } else {
        assert |p| == 1 && |q| == 1;
        assert SharedLength(p, q) == 1;
      }
    }
  }

  lemma SharedFirstPart(root: Node, a: Position, b: Position)
    requires IsTextPosition(root, a) && IsTextPosition(root, b)
    requires SharedLength(PointParts(root, a), PointParts(root, b)) > 0
    ensures PointParts(root, a)[0] == PointParts(root, b)[0]
    ensures |a.path| > 1 && |b.path| > 1 ==> a.path[0] == b.path[0]
    ensures |a.path| > 1 <==> |b.path| > 1
  {
    var (i, j) := (a.path[0], b.path[0]);
    PartsOfCons(root, a.path, Some(a.offset));
    PartsOfCons(root, b.path, Some(b.offset));
    FirstChild(root, a);
    FirstChild(root, b);
    hide NodeAt, IsPath, PartsOf;
    assert ChildIndex(root.children, i) == ChildIndex(root.children, j);
    if i < j {
      ChildIndexOrder(root.children, i, j);
    } else if j < i {
      ChildIndexOrder(root.children, j, i);
    }
    hide ElemsBefore, CharsBefore;
  }

  lemma AgreeingEnds(p: Path, q: Path)
    requires p[..SharedLength(p, q)] == q[..SharedLength(p, q)]
    ensures var c := RangeOf([p], [q]); Collapse(c, false) == [p] && Collapse(c, true) == [q]
  {
    hide SharedLength, RangeOf, Collapse;
    var n := SharedLength(p, q);
    OneSplit(p, q);
    OneCollapse(p[..n], p[n..], q[n..]);
    assert p[..n] + p[n..] == p && q[..n] + q[n..] == q;
  }

  lemma OneSplit(p: Path, q: Path)
    ensures var n := SharedLength(p, q); RangeOf([p], [q]) == Range([p[..n]], [p[n..]], [q[n..]])
  {
    hide SharedLength;
    assert [p][..0] + [p[..SharedLength(p, q)]] == [p[..SharedLength(p, q)]];
  }

  lemma OneCollapse(parent: Path, start: Path, end: Path)
    ensures var c := Range([parent], [start], [end]); Proper(c) && Collapse(c, false) == [parent + start] && Collapse(c, true) == [parent + end]
  {
  }

  lemma AgreeingRange(p: Path, q: Path)
    requires p[..SharedLength(p, q)] == q[..SharedLength(p, q)]
    requires PrintablyReadable([p]) && PrintablyReadable([q])
    ensures var c := RangeOf([p], [q]); Parse(ToString(c)) == Success(c) && Collapse(c, false) == [p] && Collapse(c, true) == [q]
  {
    hide ToString, Parse, SharedLength, PrintablyReadable, ReadableCfi, PrintableCfi, RangeOf, Collapse;
    RangeOfIsPrintable([p], [q]);
    PlainRoundTripIffPrintable(RangeOf([p], [q]));
    AgreeingEnds(p, q);
  }

  /** Both ends of the range of two positions, after printing and parsing: exactly their parts. */
  lemma RangeEnds(root: Node, start: Position, end: Position)
    requires IsTextPosition(root, start) && IsTextPosition(root, end)
    ensures var c := RangeCfi(root, start, end);
            && Parse(ToString(c)) == Success(c)
            && Collapse(c, false) == [PointParts(root, start)]
            && Collapse(c, true) == [PointParts(root, end)]
  {
    hide ToString, Parse, PointParts, IsTextPosition, RangeOf, SharedLength;
    PointIsPrintable(root, start);
    PointIsPrintable(root, end);
    if start == end {
      PlainRoundTripIffPrintable(Point([PointParts(root, start)]));
    } else {
      SharedPartsAgree(root, start, end);
      AgreeingRange(PointParts(root, start), PointParts(root, end));
    }
  }

  /** Range round trip: the text of a selection resolves to its two points. */
  lemma RangeRoundTrip(root: Node, start: Position, end: Position)
    requires IsTextPosition(root, start) && IsTextPosition(root, end)
    ensures var parsed := Parse(ToString(RangeCfi(root, start, end)));
            && parsed.Success? && Proper(parsed.value)
            && var s, e := Resolve(root, Collapse(parsed.value, false)[0]), Resolve(root, Collapse(parsed.value, true)[0]);
               s.Success? && Lands(root, s.value, start) && e.Success? && Lands(root, e.value, end)
  {
    hide Lands, Resolve, RangeCfi, ToString, Parse, PointParts, IsTextPosition;
    RangeEnds(root, start, end);
    ResolvePointParts(root, start);
    ResolvePointParts(root, end);
  }

  /** Selections are ordered by their start points, then by their end points. */
  lemma RangeOrder(root: Node, a: Position, b: Position, c: Position, d: Position)
    requires IsTextPosition(root, a) && IsTextPosition(root, b) && IsTextPosition(root, c) && IsTextPosition(root, d)
    ensures CompareCfi(RangeCfi(root, a, b), RangeCfi(root, c, d)) ==
            if DocumentOrder(root, a, c) != 0 then DocumentOrder(root, a, c) else DocumentOrder(root, b, d)
  {
    RangeEnds(root, a, b);
    RangeEnds(root, c, d);
    CompareIsDocumentOrder(root, a, c);
    CompareIsDocumentOrder(root, b, d);
    hide RangeCfi, ToString, Parse, PointParts, IsTextPosition, DocumentOrder, ComparePath;
    SinglePaths(PointParts(root, a), PointParts(root, c));
    SinglePaths(PointParts(root, b), PointParts(root, d));
  }

  lemma SinglePaths(p: Path, q: Path)
    ensures ComparePaths([p], [q]) == ComparePath(p, q)
  {
    hide ComparePath;
    assert ComparePathsFrom([p], [q], 1) == 0;
  }

  // ----- Ends in an element or a comment

  lemma {:induction false} OffsetIsReread(parts: Path, last: Part)
    requires PrintablePath(parts) && ReadablePath(parts) && Readable(last)
    ensures ReadablePath(parts + [last]) && RereadPath(parts + [last]) == parts + [Reread(last)]
  {
    hide Printable, Readable, Reread;
    forall k | 0 <= k < |parts|
      ensures Reread(parts[k]) == parts[k]
    {
      PrintableIsReread(parts[k]);
    }
  }

  lemma PrintableIsReread(p: Part)
    requires Readable(p) && Printable(p)
    ensures Reread(p) == p
  {
    RereadIffPrintable(p);
  }

  lemma ElementPartIsReread(children: seq<Node>, k: nat, offset: nat)
    requires k < |children| && children[k].Elem?
    ensures Readable(PartOf(children, k, Some(offset))) && !Printable(PartOf(children, k, Some(offset)))
    ensures Reread(PartOf(children, k, Some(offset))) == PartOf(children, k, None)
  {
    hide CharsBefore, ElemsBefore, Readable, Printable, Reread;
    assert (2 * ElemsBefore(children, k) + 2) % 2 == 0;
    EvenPartIsReread(PartOf(children, k, Some(offset)));
  }

  /** A step to an element loses its offset. */
  lemma EvenPartIsReread(p: Part)
    requires !Odd(p.index) && p.offset.Some? && p.temporal == "" && p.spatial == [] && p.text == [] && p.side == ""
    ensures Readable(p) && !Printable(p) && Reread(p) == p.(offset := None)
  {
    hide NumeralOrNaN;
    assert UpToNaN([]) == [] && FirstNonEmpty([]) == 0;
  }

  /** An end in a comment is the element around it, if that holds anything but comments, and otherwise throws. */
  lemma CommentEnd(root: Node, parent: seq<nat>, k: nat, offset: nat)
    requires IsPath(root, parent + [k]) && NodeAt(root, parent + [k]).Other?
    ensures IsPath(root, parent) && NodeAt(root, parent).Elem?
    ensures EndParts(root, Position(parent + [k], offset)) ==
            if exists i :: 0 <= i < |NodeAt(root, parent).children| && !NodeAt(root, parent).children[i].Other?
            then Success(PartsOf(root, parent, None)) else Thrown
  {
    hide PartsOf;
    PathAppend(root, parent, k);
    var path := parent + [k];
    assert path[..|path| - 1] == parent && ParentOf(root, path) == parent;
  }

  /** The end of a selection comes back from its text with all its parts, but for the offset in an element. */
  lemma EndComesBack(root: Node, p: Position)
    requires IsPath(root, p.path) && EndParts(root, p).Success?
    ensures var node, parts := NodeAt(root, p.path), EndParts(root, p).value;
            && Parse(ToString(Point([parts]))) == Success(Point([if node.Elem? then PartsOf(root, p.path, None) else parts]))
            && (Parse(ToString(Point([parts]))) == Success(Point([parts])) <==> !node.Elem?)
  {
    hide ToString, Parse, PartsOf, NodeAt, IsPath, PartOf;
    hide Readable, Printable, ReadablePath, PrintablePath, RereadPath, ChildrenAt;
    var node, parts := NodeAt(root, p.path), EndParts(root, p).value;
    var parent, k := ParentOf(root, p.path), p.path[|p.path| - 1];
    if node.Elem? {
      assert p.path == parent + [k];
      var children := NodeAt(root, parent).children;
      PartsOfAppend(root, parent, k, Some(p.offset));
      PartsOfAppend(root, parent, k, None);
      PartsArePrintable(root, parent, None);
      ElementPartIsReread(children, k, p.offset);
      var before, last := PartsOf(root, parent, None), PartOf(children, k, Some(p.offset));
      OffsetIsReread(before, last);
      OnePathIsReread(before + [last]);
      assert (before + [last])[|before|] == last && (before + [PartOf(children, k, None)])[|before|] == PartOf(children, k, None);
      PartOffsets(children, k, p.offset);
    } else {
      if node.Text? {
        PartsArePrintable(root, p.path, Some(p.offset));
      } else {
        PartsArePrintable(root, parent, None);
      }
      PointComesBack(parts);
    }
  }

  lemma PartOffsets(children: seq<Node>, k: nat, offset: nat)
    requires k < |children|
    ensures PartOf(children, k, Some(offset)) != PartOf(children, k, None)
  {
  }

  lemma OnePathIsReread(path: Path)
    requires ReadablePath(path)
    ensures Parse(ToString(Point([path]))) == Success(Point([RereadPath(path)]))
  {
    hide ToString, Parse, ReadablePath, RereadPath;
    ParseToString(Point([path]));
    assert RereadPaths([path]) == [RereadPath(path)];
  }

  // ----- Elements

  /** The parts of an element lead to it exactly when it has no id, or no element before it in the document has the same. */
  lemma ElementRoundTrip(root: Node, path: seq<nat>)
    requires path != [] && IsPath(root, path) && NodeAt(root, path).Elem?
    ensures var t := Resolve(root, PartsOf(root, path, None));
            && t.Success? && t.value.Found?
            && (t.value.path == Some(path) <==>
                 NodeAt(root, path).id == "" || forall q :: HasId(root, q, NodeAt(root, path).id) ==> !LexLess(q, path))
  {
    hide PartsOf, WalkFrom, FindId, ChildIndex, CharsBefore, IsPath, NodeAt, LexLess;
    var parent, k := path[..|path| - 1], path[|path| - 1];
    assert path == parent + [k];
    PathAppend(root, parent, k);
    PartsOfAppend(root, parent, k, None);
    WalkToElement(root, path);
    FindIdIff(root, NodeAt(root, path).id);
    assert HasId(root, path, NodeAt(root, path).id);
    var parts := PartsOf(root, path, None);
    assert parts[|parts| - 1] == PartOf(NodeAt(root, parent).children, k, None);
  }

  /** The identifiers of child elements of one parent, in one pass over its indexed children: each is what the general
      way would give. */
  method FromElements(root: Node, parent: seq<nat>, ks: seq<nat>) returns (results: seq<string>)
    requires parent != [] && IsPath(root, parent) && NodeAt(root, parent).Elem? && ks != []
    requires forall i :: 0 <= i < |ks| ==> ks[i] < |ChildrenAt(root, parent)| && ChildrenAt(root, parent)[ks[i]].Elem?
    requires forall i, j :: 0 <= i < j < |ks| ==> ks[i] < ks[j]
    ensures |results| == |ks|
    ensures forall i :: 0 <= i < |ks| ==>
              IsPath(root, parent + [ks[i]]) && results[i] == ToString(Point([PartsOf(root, parent + [ks[i]], None)]))
  {
    hide ToString, PartsOf, IsPath, NodeAt, Indexed, ChildIndex;
    var children := ChildrenAt(root, parent);
    results := [];
    var parts := NodeToParts(root, parent, None);
    EntryOfChild(children, ks[0]);
    var entries := IndexChildNodes(children);
    ElementEntries(children, ks);
    for index := 0 to |entries|
      invariant |results| <= |ks|
      invariant forall i :: 0 <= i < |results| ==>
                  IsPath(root, parent + [ks[i]]) && results[i] == ToString(Point([PartsOf(root, parent + [ks[i]], None)]))
      invariant |results| < |ks| ==> index <= ChildIndex(children, ks[|results|])
    {
      if |results| < |ks| && entries[index] == One(ks[|results|]) {
        var k := ks[|results|];
        PathAppend(root, parent, k);
        PartsOfAppend(root, parent, k, None);
        assert index == ChildIndex(children, k) by {
          OnlyItsEntryMentions(children, k, index);
        }
        results := results + [ToString(Point([parts + [Part(Num(index), IdOf(children[k]), None, "", [], [], "")]]))];
      }
    }
  }

  lemma ElementEntries(children: seq<Node>, ks: seq<nat>)
    requires forall i :: 0 <= i < |ks| ==> ks[i] < |children| && children[ks[i]].Elem?
    requires forall i, j :: 0 <= i < j < |ks| ==> ks[i] < ks[j]
    ensures forall i :: 0 <= i < |ks| ==>
              ChildIndex(children, ks[i]) < |Indexed(children)| && Indexed(children)[ChildIndex(children, ks[i])] == One(ks[i])
    ensures forall i, j :: 0 <= i < j < |ks| ==> ChildIndex(children, ks[i]) < ChildIndex(children, ks[j])
  {
    hide Indexed, ChildIndex;
    forall i | 0 <= i < |ks|
      ensures ChildIndex(children, ks[i]) < |Indexed(children)| && Indexed(children)[ChildIndex(children, ks[i])] == One(ks[i])
    {
      EntryOfChild(children, ks[i]);
    }
    forall i, j | 0 <= i < j < |ks|
      ensures ChildIndex(children, ks[i]) < ChildIndex(children, ks[j])
    {
      ChildIndexOrder(children, ks[i], ks[j]);
    }
  }
}
