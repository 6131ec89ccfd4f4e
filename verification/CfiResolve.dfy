/** Resolving parts to a node, and the round trip: a text position comes back as the same point of the document. */
module CfiResolve {
  import opened Wrappers
  import opened CfiSyntax
  import opened CfiDom
  import opened CfiPositions

  // ----- From parts to a node

  /** What resolving returns: a node, perhaps null, with an offset that may not be set; a virtual element next to a node;
      or nothing at all. */
  datatype Target =
    | Found(path: Option<seq<nat>>, offset: Option<Number>)
    | BeforeNode(node: seq<nat>)
    | AfterNode(node: seq<nat>)
    | Missing

  /** The variable that descends the tree: null, a node, or an array of text nodes. */
  datatype Cursor = Nowhere | Here(path: seq<nat>) | Merged(parent: seq<nat>, ks: seq<nat>)

  datatype Walk = Stopped(t: Target) | Arrived(c: Cursor)

  function ChildrenAt(root: Node, path: seq<nat>): seq<Node> {
    var n := NodeAt(root, path); if n.Elem? then n.children else []
  }

  /** One turn of the descent; indexing the child nodes throws when there are none. */
  function Descend(root: Node, c: Cursor, index: Number): Result<Walk> {
    match c
    case Nowhere => Success(Arrived(Nowhere))
    case Merged(_, _) => Thrown
    case Here(path) =>
      var children := ChildrenAt(root, path);
      if forall k :: 0 <= k < |children| ==> children[k].Other? then Thrown
      else if index.NaN? || index.n >= |Indexed(children)| then Success(Arrived(Nowhere))
      else match Indexed(children)[index.n]
        case First => Success(Stopped(Found(Some(path + [0]), None)))
        case Last => Success(Stopped(Found(Some(path + [|children| - 1]), None)))
        case Before => Success(Stopped(BeforeNode(path)))
        case After => Success(Stopped(AfterNode(path)))
        case Gap => Success(Arrived(Nowhere))
        case One(k) => Success(Arrived(Here(path + [k])))
        case Many(ks) => Success(Arrived(Merged(path, ks)))
  }

  function WalkFrom(root: Node, c: Cursor, parts: Path): Result<Walk>
    decreases |parts|
  {
    if parts == [] then Success(Arrived(c)) else
    var w :- Descend(root, c, parts[0].index);
    if w.Stopped? then Success(w) else WalkFrom(root, w.c, parts[1..])
  }

  function LengthAt(children: seq<Node>, k: nat): nat {
    if k < |children| then Length(children[k]) else 0
  }

  predicate Reached(offset: Option<Number>, end: nat) {
    offset.Some? && offset.value.Num? && end >= offset.value.n
  }

  /** The first text node of the chunk at whose end the offset is reached. */
  function PickText(children: seq<Node>, parent: seq<nat>, ks: seq<nat>, offset: Option<Number>, sum: nat): Target
    requires sum > 0 ==> !Reached(offset, sum - 1)
    decreases |ks|
  {
    if ks == [] || offset == None || offset == Some(NaN) then Missing
    else if Reached(offset, sum + LengthAt(children, ks[0]))
    then Found(Some(parent + [ks[0]]), Some(Num(offset.value.n - sum)))
    else PickText(children, parent, ks[1..], offset, sum + LengthAt(children, ks[0]))
  }

  /** `getElementById`: the first element in document order with the id. */
  function FindId(n: Node, id: string): Option<seq<nat>> {
    if !n.Elem? then None
    else if n.id == id then Some([])
    else FindIdIn(n.children, id, 0)
  }

  function FindIdIn(children: seq<Node>, id: string, k: nat): Option<seq<nat>>
    requires k <= |children|
    decreases children, |children| - k
  {
    if k == |children| then None
    else match FindId(children[k], id)
      case Some(path) => Some([k] + path)
      case None => FindIdIn(children, id, k + 1)
  }

  function Finish(root: Node, w: Walk, offset: Option<Number>): Target {
    match w
    case Stopped(t) => t
    case Arrived(Nowhere) => Found(None, offset)
    case Arrived(Here(path)) => Found(Some(path), offset)
    case Arrived(Merged(parent, ks)) => PickText(ChildrenAt(root, parent), parent, ks, offset, 0)
  }

  /** An id wins over the steps, when an element has it. */
  function Resolve(root: Node, parts: Path): Result<Target> {
    if parts == [] then Thrown else
    var last := parts[|parts| - 1];
    if last.id != "" && FindId(root, last.id).Some? then Success(Found(FindId(root, last.id), Some(Num(0)))) else
    var w :- WalkFrom(root, Here([]), parts);
    Success(Finish(root, w, last.offset))
  }

  method PickTextNode(children: seq<Node>, parent: seq<nat>, ks: seq<nat>, offset: Option<Number>) returns (t: Target)
    ensures t == PickText(children, parent, ks, offset, 0)
  {
    var sum := 0;
    for i := 0 to |ks|
      invariant sum > 0 ==> !Reached(offset, sum - 1)
      invariant PickText(children, parent, ks, offset, 0) == PickText(children, parent, ks[i..], offset, sum)
    {
      var length := LengthAt(children, ks[i]);
      if Reached(offset, sum + length) {
        return Found(Some(parent + [ks[i]]), Some(Num(offset.value.n - sum)));
      }
      assert ks[i..][1..] == ks[i + 1..];
      sum := sum + length;
    }
    t := Missing;
  }

  method PartsToNode(root: Node, parts: Path) returns (r: Result<Target>)
    ensures r == Resolve(root, parts)
  {
    hide Indexed, FindId, NodeAt, ChildrenAt;
    if parts == [] {
      return Thrown;
    }
    var last := parts[|parts| - 1];
    if last.id != "" {
      var el := FindId(root, last.id);
      if el.Some? {
        return Success(Found(el, Some(Num(0))));
      }
    }
    var node := Here([]);
    for i := 0 to |parts|
      invariant WalkFrom(root, Here([]), parts) == WalkFrom(root, node, parts[i..])
    {
      assert parts[i..][1..] == parts[i + 1..];
      var index := parts[i].index;
      if node.Merged? {
        return Thrown;
      }
      if node.Here? {
        var path := node.path;
        var children := ChildrenAt(root, path);
        if forall k :: 0 <= k < |children| ==> children[k].Other? {
          return Thrown;
        }
        var nodes := IndexChildNodes(children);
        if index.NaN? || index.n >= |nodes| {
          node := Nowhere;
        } else {
          match nodes[index.n] {
            case First => return Success(Found(Some(path + [0]), None));
            case Last => return Success(Found(Some(path + [|children| - 1]), None));
            case Before => return Success(BeforeNode(path));
            case After => return Success(AfterNode(path));
            case Gap => node := Nowhere;
            case One(k) => node := Here(path + [k]);
            case Many(ks) => node := Merged(path, ks);
          }
        }
      }
    }
    match node {
      case Nowhere => r := Success(Found(None, last.offset));
      case Here(path) => r := Success(Found(Some(path), last.offset));
      case Merged(parent, ks) =>
        var t := PickTextNode(ChildrenAt(root, parent), parent, ks, last.offset);
        r := Success(t);
    }
  }

  // ----- Points of the document

  /** A position in a text node. */
  datatype Position = Position(path: seq<nat>, offset: nat)

  predicate IsTextPosition(root: Node, p: Position) {
    && p.path != [] && IsPath(root, p.path) && NodeAt(root, p.path).Text?
    && p.offset <= |NodeAt(root, p.path).data|
  }

  predicate Blank(n: Node) {
    !n.Elem? && Length(n) == 0
  }

  /** No element and no character lies between two positions in sibling text nodes. */
  ghost predicate Adjoining(children: seq<Node>, i: nat, x: nat, j: nat, y: nat)
    requires i < |children| && j < |children|
  {
    if i == j then x == y
    else if i < j then x == Length(children[i]) && y == 0 && forall m :: i < m < j ==> Blank(children[m])
    else y == Length(children[j]) && x == 0 && forall m :: j < m < i ==> Blank(children[m])
  }

  ghost predicate SamePoint(root: Node, a: Position, b: Position)
    requires IsTextPosition(root, a) && IsTextPosition(root, b)
  {
    var (i, j) := (a.path[|a.path| - 1], b.path[|b.path| - 1]);
    var parent := a.path[..|a.path| - 1];
    && parent == b.path[..|b.path| - 1]
    && i < |ChildrenAt(root, parent)| && j < |ChildrenAt(root, parent)|
    && Adjoining(ChildrenAt(root, parent), i, a.offset, j, b.offset)
  }

  /** The parts of a text position. */
  function PointParts(root: Node, p: Position): Path
    requires IsTextPosition(root, p)
  {
    PartsOf(root, p.path, Some(p.offset))
  }

  lemma {:induction false} CharsAdvance(children: seq<Node>, i: nat, j: nat)
    requires i < j <= |children| && !children[i].Elem? && ElemsBefore(children, i) == ElemsBefore(children, j)
    ensures CharsBefore(children, j) >= CharsBefore(children, i) + Length(children[i])
    ensures CharsBefore(children, j) == CharsBefore(children, i) + Length(children[i]) <==> forall m :: i < m < j ==> Blank(children[m])
    decreases j
  {
    ElemsMonotone(children, i, j - 1);
    if i + 1 < j {
      CharsAdvance(children, i, j - 1);
      hide ElemsBefore;
      assert CharsBefore(children, j) == CharsBefore(children, j - 1) + Length(children[j - 1]);
      assert (forall m :: i < m < j ==> Blank(children[m])) <==> Blank(children[j - 1]) && forall m :: i < m < j - 1 ==> Blank(children[m]);
    }
  }

  /** Within one chunk, the merged offset tells points apart. */
  lemma MergedOffsetsTellPointsApart(children: seq<Node>, i: nat, x: nat, j: nat, y: nat)
    requires i <= j < |children| && children[i].Text? && children[j].Text?
    requires x <= Length(children[i]) && y <= Length(children[j])
    requires ElemsBefore(children, i) == ElemsBefore(children, j)
    ensures CharsBefore(children, i) + x == CharsBefore(children, j) + y <==> Adjoining(children, i, x, j, y)
    ensures i < j ==> CharsBefore(children, i) + x <= CharsBefore(children, j) + y
  {
    hide ElemsBefore, CharsBefore;
    if i < j {
      CharsAdvance(children, i, j);
    }
  }

  // ----- The round trip of a position

  /** Where the descent along the parts of a node ends. */
  function CursorOf(root: Node, parent: seq<nat>, k: nat): Cursor
    requires k < |ChildrenAt(root, parent)| && ChildIndex(ChildrenAt(root, parent), k) < |Indexed(ChildrenAt(root, parent))|
  {
    var children := ChildrenAt(root, parent);
    match Indexed(children)[ChildIndex(children, k)]
    case Many(ks) => Merged(parent, ks)
    case _ => Here(parent + [k])
  }

  lemma DescendToChild(root: Node, path: seq<nat>, k: nat)
    requires k < |ChildrenAt(root, path)| && !ChildrenAt(root, path)[k].Other?
    ensures ChildIndex(ChildrenAt(root, path), k) < |Indexed(ChildrenAt(root, path))|
    ensures Descend(root, Here(path), Num(ChildIndex(ChildrenAt(root, path), k))) == Success(Arrived(CursorOf(root, path, k)))
    ensures !ChildrenAt(root, path)[k].Text? ==> CursorOf(root, path, k) == Here(path + [k])
  {
    EntryOfChild(ChildrenAt(root, path), k);
    hide Indexed, ChildIndex, IsChunk, CharsBefore;
  }

  lemma WalkOne(root: Node, c: Cursor, part: Part)
    ensures WalkFrom(root, c, [part]) == Descend(root, c, part.index)
  {
  }

  lemma {:induction false} WalkAppend(root: Node, c: Cursor, a: Path, b: Path)
    requires WalkFrom(root, c, a).Success? && WalkFrom(root, c, a).value.Arrived?
    ensures WalkFrom(root, c, a + b) == WalkFrom(root, WalkFrom(root, c, a).value.c, b)
    decreases |a|
  {
    hide Descend;
    if a == [] {
      assert a + b == b;
    } else {
      assert (a + b)[0] == a[0] && (a + b)[1..] == a[1..] + b;
      WalkAppend(root, Descend(root, c, a[0].index).value.c, a[1..], b);
    }
  }

  lemma {:induction false} WalkToElement(root: Node, path: seq<nat>)
    requires IsPath(root, path) && NodeAt(root, path).Elem?
    ensures WalkFrom(root, Here([]), PartsOf(root, path, None)) == Success(Arrived(Here(path)))
    decreases |path|
  {
    if path != [] {
      var parent, k := path[..|path| - 1], path[|path| - 1];
      assert path == parent + [k];
      PathAppend(root, parent, k);
      WalkToElement(root, parent);
      WalkToChild(root, parent, k, None);
    }
  }

  lemma WalkToChild(root: Node, parent: seq<nat>, k: nat, offset: Option<nat>)
    requires IsPath(root, parent) && IsPath(root, parent + [k]) && !NodeAt(root, parent + [k]).Other?
    requires WalkFrom(root, Here([]), PartsOf(root, parent, None)) == Success(Arrived(Here(parent)))
    ensures k < |ChildrenAt(root, parent)| && ChildrenAt(root, parent)[k] == NodeAt(root, parent + [k])
    ensures ChildIndex(ChildrenAt(root, parent), k) < |Indexed(ChildrenAt(root, parent))|
    ensures WalkFrom(root, Here([]), PartsOf(root, parent + [k], offset)) == Success(Arrived(CursorOf(root, parent, k)))
    ensures NodeAt(root, parent + [k]).Elem? ==> CursorOf(root, parent, k) == Here(parent + [k])
  {
    hide WalkFrom, Descend, CursorOf, ChildIndex, Indexed, PartsOf;
    PathAppend(root, parent, k);
    PartsOfAppend(root, parent, k, offset);
    DescendToChild(root, parent, k);
    var part := PartOf(NodeAt(root, parent).children, k, offset);
    WalkAppend(root, Here([]), PartsOf(root, parent, None), [part]);
    WalkOne(root, Here(parent), part);
  }

  /** Walking along the parts of a node leads to it, or to the chunk it is merged into. */
  lemma WalkToNode(root: Node, parent: seq<nat>, k: nat, offset: Option<nat>)
    requires IsPath(root, parent + [k]) && !NodeAt(root, parent + [k]).Other?
    ensures k < |ChildrenAt(root, parent)| && ChildrenAt(root, parent)[k] == NodeAt(root, parent + [k])
    ensures ChildIndex(ChildrenAt(root, parent), k) < |Indexed(ChildrenAt(root, parent))|
    ensures WalkFrom(root, Here([]), PartsOf(root, parent + [k], offset)) == Success(Arrived(CursorOf(root, parent, k)))
    ensures NodeAt(root, parent + [k]).Elem? ==> CursorOf(root, parent, k) == Here(parent + [k])
  {
    hide WalkFrom, CursorOf;
    PathAppend(root, parent, k);
    WalkToElement(root, parent);
    WalkToChild(root, parent, k, offset);
  }

  /** The text node picked for a merged offset is one whose span contains it. */
  lemma {:induction false} PickTextFinds(children: seq<Node>, parent: seq<nat>, ts: seq<nat>, i: nat, k: nat, o: nat) returns (j: nat)
    requires (forall m :: 0 <= m < |ts| ==> ts[m] < |children|) && i <= k < |ts| && o <= Length(children[ts[k]])
    requires var offset := Some(Num(TotalLength(children, ts[..k]) + o));
             var sum := TotalLength(children, ts[..i]); sum > 0 ==> !Reached(offset, sum - 1)
    ensures i <= j <= k
    ensures var n := TotalLength(children, ts[..k]) + o;
            var sum := TotalLength(children, ts[..j]);
            && sum <= n <= sum + Length(children[ts[j]])
            && PickText(children, parent, ts[i..], Some(Num(n)), TotalLength(children, ts[..i]))
               == Found(Some(parent + [ts[j]]), Some(Num(n - sum)))
    decreases k - i
  {
    hide TotalLength, Length;
    TotalLengthStep(children, ts, i);
    j := i;
    if i == k || Reached(Some(Num(TotalLength(children, ts[..k]) + o)), TotalLength(children, ts[..i]) + Length(children[ts[i]])) {
    } else {
      assert ts[i..][1..] == ts[i + 1..];
      j := PickTextFinds(children, parent, ts, i + 1, k, o);
    }
  }

  /** Resolving finds a text position that is the same point. */
  ghost predicate Lands(root: Node, t: Target, p: Position)
    requires IsTextPosition(root, p)
  {
    && t.Found? && t.path.Some? && t.offset.Some? && t.offset.value.Num?
    && IsTextPosition(root, Position(t.path.value, t.offset.value.n))
    && SamePoint(root, Position(t.path.value, t.offset.value.n), p)
  }

  lemma PickInChunk(children: seq<Node>, parent: seq<nat>, ts: seq<nat>, k: nat, o: nat) returns (i: nat, x: nat)
    requires k < |children| && k in ts && children[k].Text? && o <= Length(children[k])
    requires IsChunk(children, ts, ElemsBefore(children, k))
    ensures PickText(children, parent, ts, Some(Num(CharsBefore(children, k) + o)), 0) == Found(Some(parent + [i]), Some(Num(x)))
    ensures i < |children| && children[i].Text? && x <= Length(children[i]) && Adjoining(children, i, x, k, o)
  {
    hide PickText, ElemsBefore, CharsBefore, TotalLength, Adjoining;
    var m :| 0 <= m < |ts| && ts[m] == k;
    assert ts[0..] == ts && ts[..0] == [];
    NoLength(children);
    var j := PickTextFinds(children, parent, ts, 0, m, o);
    i := ts[j];
    assert CharsBefore(children, i) == TotalLength(children, ts[..j]) && CharsBefore(children, k) == TotalLength(children, ts[..m]);
    x := CharsBefore(children, k) + o - CharsBefore(children, i);
    hide IsChunk;
    if i <= k {
      MergedOffsetsTellPointsApart(children, i, x, k, o);
    } else {
      MergedOffsetsTellPointsApart(children, k, o, i, x);
      AdjoiningSymmetric(children, i, x, k, o);
    }
  }

  lemma AdjoiningSymmetric(children: seq<Node>, i: nat, x: nat, j: nat, y: nat)
    requires i < |children| && j < |children|
    ensures Adjoining(children, i, x, j, y) <==> Adjoining(children, j, y, i, x)
  {
  }

  lemma SiblingLands(root: Node, parent: seq<nat>, i: nat, x: nat, k: nat, o: nat)
    requires IsTextPosition(root, Position(parent + [k], o))
    requires var children := ChildrenAt(root, parent);
             && i < |children| && k < |children| && children[i].Text? && x <= Length(children[i])
             && Adjoining(children, i, x, k, o)
    ensures Lands(root, Found(Some(parent + [i]), Some(Num(x))), Position(parent + [k], o))
  {
    hide Adjoining;
    PathAppend(root, parent, i);
    PathAppend(root, parent, k);
    hide NodeAt, IsPath;
    assert (parent + [i])[..|parent|] == parent && (parent + [k])[..|parent|] == parent;
  }

  lemma FinishLands(root: Node, parent: seq<nat>, k: nat, o: nat)
    requires IsTextPosition(root, Position(parent + [k], o))
    requires k < |ChildrenAt(root, parent)| && ChildrenAt(root, parent)[k] == NodeAt(root, parent + [k])
    requires ChildIndex(ChildrenAt(root, parent), k) < |Indexed(ChildrenAt(root, parent))|
    ensures var offset := Some(Num(CharsBefore(ChildrenAt(root, parent), k) + o));
            Lands(root, Finish(root, Arrived(CursorOf(root, parent, k)), offset), Position(parent + [k], o))
  {
    hide Indexed, ChildIndex, PickText, CharsBefore, ElemsBefore, IsChunk, Lands, NodeAt, IsPath;
    var children := ChildrenAt(root, parent);
    EntryOfChild(children, k);
    var entry := Indexed(children)[ChildIndex(children, k)];
    if entry.Many? {
      var i, x := PickInChunk(children, parent, entry.ks, k, o);
      hide Adjoining;
      SiblingLands(root, parent, i, x, k, o);
    } else {
      SiblingLands(root, parent, k, o, k, o);
    }
  }

  lemma LastPointPart(root: Node, parent: seq<nat>, k: nat, o: nat)
    requires IsTextPosition(root, Position(parent + [k], o))
    ensures k < |ChildrenAt(root, parent)|
    ensures var parts := PointParts(root, Position(parent + [k], o));
            && parts != [] && parts[|parts| - 1].id == ""
            && parts[|parts| - 1].offset == Some(Num(CharsBefore(ChildrenAt(root, parent), k) + o))
  {
    hide PartsOf, CharsBefore, ChildIndex, NodeAt, IsPath;
    PartsOfAppend(root, parent, k, Some(o));
    PathAppend(root, parent, k);
  }

  lemma ResolveChild(root: Node, parent: seq<nat>, k: nat, o: nat)
    requires IsTextPosition(root, Position(parent + [k], o))
    ensures var p := Position(parent + [k], o);
            var t := Resolve(root, PointParts(root, p)); t.Success? && Lands(root, t.value, p)
  {
    hide WalkFrom, Indexed, PartsOf, ChildIndex, CharsBefore, Finish, CursorOf, FindId, Lands, NodeAt, IsPath;
    WalkToNode(root, parent, k, Some(o));
    FinishLands(root, parent, k, o);
    LastPointPart(root, parent, k, o);
  }

  /** Position round trip, on the level of parts. */
  lemma ResolvePointParts(root: Node, p: Position)
    requires IsTextPosition(root, p)
    ensures PointParts(root, p) != []
    ensures var t := Resolve(root, PointParts(root, p)); t.Success? && Lands(root, t.value, p)
  {
    hide Lands, Resolve;
    var parent, k := p.path[..|p.path| - 1], p.path[|p.path| - 1];
    assert p == Position(parent + [k], p.offset);
    ResolveChild(root, parent, k, p.offset);
  }
}
