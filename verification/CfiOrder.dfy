/** Comparing the identifiers of two text positions is comparing their places in the document. */
module CfiOrder {
  import opened Wrappers
  import opened CfiRange
  import opened CfiDom
  import opened CfiPositions
  import opened CfiResolve

  predicate LexLess(a: seq<nat>, b: seq<nat>)
    decreases a
  {
    b != [] && (a == [] || a[0] < b[0] || (a[0] == b[0] && LexLess(a[1..], b[1..])))
  }

  lemma LexLessCons(a: seq<nat>, b: seq<nat>, k: nat)
    ensures LexLess([k] + a, [k] + b) <==> LexLess(a, b)
  {
    assert ([k] + a)[1..] == a && ([k] + b)[1..] == b;
  }

  lemma {:induction false} LexLessTotal(a: seq<nat>, b: seq<nat>)
    ensures a != b ==> (LexLess(a, b) <==> !LexLess(b, a))
    ensures !LexLess(a, a)
    decreases |a|
  {
    if a != [] && b != [] {
      LexLessTotal(a[1..], b[1..]);
      assert a == [a[0]] + a[1..] && b == [b[0]] + b[1..];
    } else if a != [] {
      LexLessTotal(a[1..], a[1..]);
    }
  }

  /** Document order of two text positions: boundary points of sibling text nodes with nothing between them are one
      point, and otherwise the tree order of the nodes, then of the offsets, decides. */
  ghost function DocumentOrder(root: Node, a: Position, b: Position): int
    requires IsTextPosition(root, a) && IsTextPosition(root, b)
  {
    if SamePoint(root, a, b) then 0
    else if LexLess(a.path + [a.offset], b.path + [b.offset]) then -1
    else 1
  }

  function Below(p: Position): Position
    requires p.path != []
  {
    Position(p.path[1..], p.offset)
  }

  lemma SamePointBelow(root: Node, a: Position, b: Position)
    requires IsTextPosition(root, a) && IsTextPosition(root, b)
    requires a.path[0] == b.path[0] && |a.path| > 1 && |b.path| > 1
    ensures var child := root.children[a.path[0]];
            && IsTextPosition(child, Below(a)) && IsTextPosition(child, Below(b))
            && (SamePoint(root, a, b) <==> SamePoint(child, Below(a), Below(b)))
  {
    hide Adjoining;
    var child := root.children[a.path[0]];
    var parent, parent' := a.path[..|a.path| - 1], b.path[..|b.path| - 1];
    assert parent[1..] == a.path[1..][..|a.path| - 2];
    assert parent'[1..] == b.path[1..][..|b.path| - 2];
    assert ChildrenAt(root, parent) == ChildrenAt(child, parent[1..]);
    if parent[1..] == parent'[1..] {
      assert parent == [a.path[0]] + parent[1..] && parent' == [a.path[0]] + parent'[1..];
    }
  }

  lemma DocumentOrderBelow(root: Node, a: Position, b: Position)
    requires IsTextPosition(root, a) && IsTextPosition(root, b)
    requires a.path[0] == b.path[0] && |a.path| > 1 && |b.path| > 1
    ensures var child := root.children[a.path[0]];
            && IsTextPosition(child, Below(a)) && IsTextPosition(child, Below(b))
            && DocumentOrder(root, a, b) == DocumentOrder(child, Below(a), Below(b))
  {
    hide SamePoint;
    SamePointBelow(root, a, b);
    assert (a.path + [a.offset])[1..] == a.path[1..] + [a.offset];
    assert (b.path + [b.offset])[1..] == b.path[1..] + [b.offset];
  }

  /** Different children of one node: their order is the order of their places, unless both are text of one chunk. */
  lemma ChildIndexOrder(children: seq<Node>, i: nat, j: nat)
    requires i < j < |children|
    ensures ChildIndex(children, i) <= ChildIndex(children, j)
    ensures ChildIndex(children, i) == ChildIndex(children, j) ==>
              !children[i].Elem? && !children[j].Elem? && ElemsBefore(children, i) == ElemsBefore(children, j)
  {
  }

  /** With an element between two text siblings, they are not adjoining. */
  lemma {:induction false} ElementBetween(children: seq<Node>, i: nat, j: nat)
    requires i < j <= |children| && !children[i].Elem? && ElemsBefore(children, i) < ElemsBefore(children, j)
    ensures exists m :: i < m < j && children[m].Elem?
    decreases j
  {
    if children[j - 1].Elem? {
      assert i < j - 1;
    } else {
      ElementBetween(children, i, j - 1);
    }
  }

  /** Sibling text nodes, in order. */
  lemma SiblingsCompare(children: seq<Node>, i: nat, x: nat, j: nat, y: nat)
    requires i < j < |children| && children[i].Text? && children[j].Text?
    requires x <= Length(children[i]) && y <= Length(children[j])
    ensures ComparePath([PartOf(children, i, Some(x))], [PartOf(children, j, Some(y))]) ==
            if Adjoining(children, i, x, j, y) then 0 else -1
  {
    hide ElemsBefore, CharsBefore;
    ChildIndexOrder(children, i, j);
    ElemsMonotone(children, i, j);
    if ElemsBefore(children, i) == ElemsBefore(children, j) {
      MergedOffsetsTellPointsApart(children, i, x, j, y);
    } else {
      ElementBetween(children, i, j);
    }
  }

  lemma PartsOfCons(root: Node, path: seq<nat>, offset: Option<nat>)
    requires path != [] && IsPath(root, path)
    ensures PartsOf(root, path, offset) ==
            [PartOf(root.children, path[0], if |path| == 1 then offset else None)] + PartsOf(root.children[path[0]], path[1..], offset)
  {
  }

  /** The first child on the way to a text position. */
  lemma FirstChild(root: Node, p: Position)
    requires IsTextPosition(root, p)
    ensures root.Elem? && p.path[0] < |root.children|
    ensures var child := root.children[p.path[0]];
            if |p.path| == 1 then p.path == [p.path[0]] && child.Text? && p.offset <= Length(child) else child.Elem?
  {
    var child := root.children[p.path[0]];
    assert NodeAt(root, p.path) == NodeAt(child, p.path[1..]);
    if |p.path| == 1 {
      assert NodeAt(child, []) == child;
    } else {
      assert IsPath(child, p.path[1..]);
    }
  }

  /** The first step decides when the two positions lie below different children, the first before the second. */
  lemma DifferentChildren(root: Node, a: Position, b: Position)
    requires IsTextPosition(root, a) && IsTextPosition(root, b) && a.path[0] < b.path[0]
    ensures ComparePath(PointParts(root, a), PointParts(root, b)) == DocumentOrder(root, a, b)
    ensures DocumentOrder(root, b, a) == -DocumentOrder(root, a, b)
  {
    var i, j := a.path[0], b.path[0];
    var children := root.children;
    PartsOfCons(root, a.path, Some(a.offset));
    PartsOfCons(root, b.path, Some(b.offset));
    ChildIndexOrder(children, i, j);
    FirstChild(root, a);
    FirstChild(root, b);
    if |a.path| == 1 && |b.path| == 1 {
      assert a.path == [i] && b.path == [j];
      SiblingPoints(root, i, a.offset, j, b.offset);
      SiblingsCompare(children, i, a.offset, j, b.offset);
    } else {
      assert children[i].Elem? || children[j].Elem?;
      hide Adjoining, PartsOf, ElemsBefore, CharsBefore, NodeAt;
    }
  }

  lemma SiblingPoints(root: Node, i: nat, x: nat, j: nat, y: nat)
    requires IsTextPosition(root, Position([i], x)) && IsTextPosition(root, Position([j], y)) && i < j
    ensures DocumentOrder(root, Position([i], x), Position([j], y)) == if Adjoining(root.children, i, x, j, y) then 0 else -1
    ensures DocumentOrder(root, Position([j], y), Position([i], x)) == if Adjoining(root.children, i, x, j, y) then 0 else 1
    ensures PointParts(root, Position([i], x)) == [PartOf(root.children, i, Some(x))]
    ensures PointParts(root, Position([j], y)) == [PartOf(root.children, j, Some(y))]
  {
  }

  /** Order isomorphism: the sign of the comparison is document order, and it is zero only for one and the same point. */
  lemma {:induction false} CompareIsDocumentOrder(root: Node, a: Position, b: Position)
    requires IsTextPosition(root, a) && IsTextPosition(root, b)
    ensures ComparePath(PointParts(root, a), PointParts(root, b)) == DocumentOrder(root, a, b)
    decreases |a.path|
  {
    var i, j := a.path[0], b.path[0];
    if i < j {
      DifferentChildren(root, a, b);
    } else if j < i {
      DifferentChildren(root, b, a);
      ComparePathAntisymmetric(PointParts(root, a), PointParts(root, b));
    } else {
      PartsOfCons(root, a.path, Some(a.offset));
      PartsOfCons(root, b.path, Some(b.offset));
      FirstChild(root, a);
      FirstChild(root, b);
      if |a.path| == 1 || |b.path| == 1 {
        assert a.path == [i] && b.path == [i];
        SameNode(root, i, a.offset, b.offset);
      } else {
        DocumentOrderBelow(root, a, b);
        hide DocumentOrder, PartsOf, CharsBefore, ChildIndex, IsTextPosition;
        var child := root.children[i];
        CompareIsDocumentOrder(child, Below(a), Below(b));
        assert PointParts(root, a)[1..] == PointParts(child, Below(a));
        assert PointParts(root, b)[1..] == PointParts(child, Below(b));
      }
    }
  }

  lemma SameNode(root: Node, i: nat, x: nat, y: nat)
    requires IsTextPosition(root, Position([i], x)) && IsTextPosition(root, Position([i], y))
    ensures ComparePath(PointParts(root, Position([i], x)), PointParts(root, Position([i], y)))
            == DocumentOrder(root, Position([i], x), Position([i], y))
  {
    hide CharsBefore, ChildIndex;
    var a, b := Position([i], x), Position([i], y);
    FirstChild(root, a);
    PartsOfCons(root, [i], Some(x));
    PartsOfCons(root, [i], Some(y));
    assert [i][1..] == [] && [i][..0] == [];
    assert PointParts(root, a) == [PartOf(root.children, i, Some(x))];
    assert PointParts(root, b) == [PartOf(root.children, i, Some(y))];
    assert SamePoint(root, a, b) <==> x == y;
    assert ([i] + [x])[1..] == [x] && ([i] + [y])[1..] == [y];
    assert LexLess([x], [y]) <==> x < y;
    assert LexLess([i] + [x], [i] + [y]) <==> x < y;
  }
}
