/** What a single step leads to, for every index: elements and the text around them, and the virtual places at the ends. */
module CfiSteps {
  import opened Wrappers
  import opened CfiSyntax
  import opened CfiDom
  import opened CfiPositions
  import opened CfiResolve
  import opened CfiIds

  /** The text nodes that stand after exactly `elems` child elements, in order. */
  ghost predicate AreTextsAfter(children: seq<Node>, elems: nat, ks: seq<nat>) {
    && (forall i, j :: 0 <= i < j < |ks| ==> ks[i] < ks[j])
    && (forall k: nat :: k in ks <==> k < |children| && children[k].Text? && ElemsBefore(children, k) == elems)
  }

  /** What the standard says a step index stands for: zero and the index after the last are before and after the content; even
      ones in between are the child elements; odd ones the text between them, where missing text at either end leads to the
      first and the last child, and missing text elsewhere to nothing. */
  ghost predicate StepLeadsTo(path: seq<nat>, children: seq<Node>, n: nat, w: Walk) {
    var last := 2 * ElemsBefore(children, |children|) + 2;
    if n == 0 then w == Stopped(BeforeNode(path))
    else if n == last then w == Stopped(AfterNode(path))
    else if n > last then w == Arrived(Nowhere)
    else if n % 2 == 0 then
      exists k :: 0 <= k < |children| && children[k].Elem? && 2 * ElemsBefore(children, k) + 2 == n && w == Arrived(Here(path + [k]))
    else
      exists ks: seq<nat> :: AreTextsAfter(children, n / 2, ks) &&
        w == if |ks| == 1 then Arrived(Here(path + [ks[0]]))
             else if |ks| > 1 then Arrived(Merged(path, ks))
             else if n == 1 then Stopped(Found(Some(path + [0]), None))
             else if n == last - 1 then Stopped(Found(Some(path + [|children| - 1]), None))
             else Arrived(Nowhere)
  }

  lemma {:induction false} ChunkAscends(children: seq<Node>, n: nat, i: nat)
    requires n <= |children| && i < |Layout(children, n)| && Layout(children, n)[i].Chunk?
    ensures var ts := Layout(children, n)[i].texts;
            && (forall a, b :: 0 <= a < b < |ts| ==> ts[a] < ts[b])
            && (forall a :: 0 <= a < |ts| ==> ts[a] < n)
    decreases n
  {
    if n > 0 {
      var before := Layout(children, n - 1);
      if i < |before| {
        if before[i].Chunk? {
          ChunkAscends(children, n - 1, i);
        }
      }
    }
  }

  lemma HeldIsAfter(children: seq<Node>, i: nat, ts: seq<nat>, k: nat)
    requires i % 2 == 0 && k < |children| && (k in ts <==> !children[k].Other? && i + 1 == ChildIndex(children, k))
    ensures k in ts <==> children[k].Text? && ElemsBefore(children, k) == i / 2
  {
    hide ElemsBefore;
  }

  lemma ChunkHoldsTexts(children: seq<Node>, i: nat)
    requires i < |Layout(children, |children|)| && i % 2 == 0
    ensures var slot := Layout(children, |children|)[i];
            slot.Chunk? && AreTextsAfter(children, i / 2, slot.texts) && IsChunk(children, slot.texts, i / 2)
  {
    hide Layout, ElemsBefore, ChildIndex, IsChunk;
    var slots := Layout(children, |children|);
    LayoutShape(children, |children|);
    LayoutIsWellLaid(children, |children|);
    assert IsSlot(children, |children|, i, slots[i]);
    assert GoodSlot(children, |children|, i, slots[i]);
    ChunkAscends(children, |children|, i);
    var ts := slots[i].texts;
    forall k: nat
      ensures k in ts <==> k < |children| && children[k].Text? && ElemsBefore(children, k) == i / 2
    {
      if k < |children| {
        assert Holds(slots[i], k) <==> k in ts;
        HeldIsAfter(children, i, ts, k);
      }
    }
  }

  lemma ElementIsHeld(children: seq<Node>, i: nat)
    requires i < |Layout(children, |children|)| && i % 2 == 1
    ensures var slot := Layout(children, |children|)[i];
            slot.Element? && slot.k < |children| && children[slot.k].Elem? && 2 * ElemsBefore(children, slot.k) + 2 == i + 1
  {
    hide Layout, ElemsBefore;
    var slots := Layout(children, |children|);
    LayoutShape(children, |children|);
    LayoutIsWellLaid(children, |children|);
    assert IsSlot(children, |children|, i, slots[i]);
    assert GoodSlot(children, |children|, i, slots[i]);
  }

  /** The step to an element, or to the text between elements. */
  lemma InnerStepIs(root: Node, path: seq<nat>, n: nat)
    requires HasContent(ChildrenAt(root, path)) && 0 < n <= |Layout(ChildrenAt(root, path), |ChildrenAt(root, path)|)|
    ensures var r := Descend(root, Here(path), Num(n)); r.Success? && StepLeadsTo(path, ChildrenAt(root, path), n, r.value)
  {
    hide Layout, ElemsBefore, Indexed, ChildrenAt, AreTextsAfter;
    var children := ChildrenAt(root, path);
    var slots := Layout(children, |children|);
    IndexedAt(children, 0);
    IndexedAt(children, n);
    if n % 2 == 0 {
      ElementIsHeld(children, n - 1);
    } else {
      ChunkHoldsTexts(children, n - 1);
      assert AreTextsAfter(children, n / 2, slots[n - 1].texts);
    }
  }

  lemma OuterStepIs(root: Node, path: seq<nat>, index: Number)
    requires HasContent(ChildrenAt(root, path))
    requires index.Num? ==> index.n == 0 || index.n > |Layout(ChildrenAt(root, path), |ChildrenAt(root, path)|)|
    ensures var r := Descend(root, Here(path), index);
            && r.Success?
            && match index
               case NaN => r.value == Arrived(Nowhere)
               case Num(n) => StepLeadsTo(path, ChildrenAt(root, path), n, r.value)
  {
    hide Layout, ElemsBefore, Indexed, ChildrenAt, AreTextsAfter;
    var children := ChildrenAt(root, path);
    IndexedAt(children, 0);
    if index.Num? && index.n <= |Layout(children, |children|)| + 1 {
      IndexedAt(children, index.n);
    }
  }

  /** Every step from a node with content leads where the standard says. */
  lemma StepIs(root: Node, path: seq<nat>, index: Number)
    requires HasContent(ChildrenAt(root, path))
    ensures var r := Descend(root, Here(path), index);
            && r.Success?
            && match index
               case NaN => r.value == Arrived(Nowhere)
               case Num(n) => StepLeadsTo(path, ChildrenAt(root, path), n, r.value)
  {
    hide *;
    if index.Num? && 0 < index.n <= |Layout(ChildrenAt(root, path), |ChildrenAt(root, path)|)| {
      InnerStepIs(root, path, index.n);
    } else {
      OuterStepIs(root, path, index);
    }
  }

  /** A step from a node without content throws, and so does one from merged text; from nowhere it leads nowhere. */
  lemma StepElsewhere(root: Node, c: Cursor, index: Number)
    ensures c.Here? && !HasContent(ChildrenAt(root, c.path)) ==> Descend(root, c, index).Thrown?
    ensures c.Merged? ==> Descend(root, c, index).Thrown?
    ensures c.Nowhere? ==> Descend(root, c, index) == Success(Arrived(Nowhere))
  {
  }

  // ----- Text nodes

  predicate IsTextAfter(children: seq<Node>, elems: nat, k: nat) {
    k < |children| && children[k].Text? && ElemsBefore(children, k) == elems
  }

  /** The text at `k` reaches as many characters after the preceding element. */
  predicate Reaches(children: seq<Node>, k: nat, n: nat)
    requires k < |children|
  {
    CharsBefore(children, k) + Length(children[k]) >= n
  }

  /** Text that was merged by a step is told apart by the offset: the first text node that reaches it is taken. */
  ghost predicate IsPicked(children: seq<Node>, parent: seq<nat>, elems: nat, offset: Option<Number>, t: Target) {
    match offset
    case Some(Num(n)) =>
      if forall k: nat :: IsTextAfter(children, elems, k) ==> !Reaches(children, k, n) then t == Missing
      else exists k: nat ::
        && IsTextAfter(children, elems, k) && Reaches(children, k, n)
        && (forall j: nat :: j < k && IsTextAfter(children, elems, j) ==> !Reaches(children, j, n))
        && CharsBefore(children, k) <= n && t == Found(Some(parent + [k]), Some(Num(n - CharsBefore(children, k))))
    case _ => t == Missing
  }

  lemma {:induction false} FirstThatReaches(children: seq<Node>, parent: seq<nat>, ts: seq<nat>, elems: nat, n: nat, i: nat) returns (j: nat)
    requires IsChunk(children, ts, elems) && i <= |ts|
    requires forall m :: 0 <= m < i ==> !Reaches(children, ts[m], n)
    requires var sum := TotalLength(children, ts[..i]); sum > 0 ==> !Reached(Some(Num(n)), sum - 1)
    ensures i <= j <= |ts| && forall m :: 0 <= m < j ==> !Reaches(children, ts[m], n)
    ensures var t := PickText(children, parent, ts[i..], Some(Num(n)), TotalLength(children, ts[..i]));
            if j == |ts| then t == Missing
            else
              && Reaches(children, ts[j], n) && CharsBefore(children, ts[j]) <= n
              && t == Found(Some(parent + [ts[j]]), Some(Num(n - CharsBefore(children, ts[j]))))
    decreases |ts| - i
  {
    hide CharsBefore, TotalLength, ElemsBefore;
    j := i;
    if i < |ts| {
      TotalLengthStep(children, ts, i);
      assert ts[i..][0] == ts[i] && ts[i..][1..] == ts[i + 1..];
      assert CharsBefore(children, ts[i]) == TotalLength(children, ts[..i]);
      if !Reaches(children, ts[i], n) {
        j := FirstThatReaches(children, parent, ts, elems, n, i + 1);
      }
    }
  }

  lemma TextsAreTheChunk(children: seq<Node>, ts: seq<nat>, elems: nat, k: nat) returns (m: nat)
    requires AreTextsAfter(children, elems, ts) && IsTextAfter(children, elems, k)
    ensures m < |ts| && ts[m] == k
  {
    hide ElemsBefore;
    assert k in ts;
    m :| m < |ts| && ts[m] == k;
  }

  lemma FirstInChunk(children: seq<Node>, ts: seq<nat>, elems: nat, n: nat, j: nat)
    requires AreTextsAfter(children, elems, ts) && j <= |ts|
    requires forall m :: 0 <= m < |ts| ==> ts[m] < |children|
    requires forall m :: 0 <= m < j ==> !Reaches(children, ts[m], n)
    ensures forall k: nat :: IsTextAfter(children, elems, k) && (j == |ts| || k < ts[j]) ==> !Reaches(children, k, n)
    ensures j < |ts| ==> IsTextAfter(children, elems, ts[j])
  {
    hide ElemsBefore, Reaches;
    forall k: nat | IsTextAfter(children, elems, k) && (j == |ts| || k < ts[j])
      ensures !Reaches(children, k, n)
    {
      var m := TextsAreTheChunk(children, ts, elems, k);
    }
    if j < |ts| {
      assert ts[j] in ts;
    }
  }

  /** What a step that leads to several text nodes picks, for any offset. */
  lemma PickedIs(children: seq<Node>, parent: seq<nat>, ts: seq<nat>, elems: nat, offset: Option<Number>)
    requires IsChunk(children, ts, elems) && AreTextsAfter(children, elems, ts)
    ensures IsPicked(children, parent, elems, offset, PickText(children, parent, ts, offset, 0))
  {
    hide CharsBefore, TotalLength, ElemsBefore, Reaches, IsTextAfter, AreTextsAfter;
    if offset.Some? && offset.value.Num? {
      assert ts[..0] == [] && ts[0..] == ts;
      NoLength(children);
      var j := FirstThatReaches(children, parent, ts, elems, offset.value.n, 0);
      FirstInChunk(children, ts, elems, offset.value.n, j);
    }
  }

  lemma MergedIsChunk(root: Node, path: seq<nat>, index: Number)
    requires var r := Descend(root, Here(path), index); r.Success? && r.value.Arrived? && r.value.c.Merged?
    ensures index.Num?
    ensures var c, elems := Descend(root, Here(path), index).value.c, index.n / 2;
            && c.parent == path && IsChunk(ChildrenAt(root, path), c.ks, elems) && AreTextsAfter(ChildrenAt(root, path), elems, c.ks)
  {
    hide Layout, ElemsBefore, ChildrenAt, IsChunk, AreTextsAfter;
    var children, n := ChildrenAt(root, path), index.n;
    var slots := Layout(children, |children|);
    IndexedAt(children, n);
    if 0 < n <= |slots| && n % 2 == 1 {
      ChunkHoldsTexts(children, n - 1);
    } else if 0 < n <= |slots| {
      ElementIsHeld(children, n - 1);
    }
  }

  // ----- Resolving

  ghost predicate EndsAt(root: Node, path: seq<nat>, part: Part, w: Walk, t: Target) {
    match w
    case Stopped(place) => t == place
    case Arrived(Nowhere) => t == Found(None, part.offset)
    case Arrived(Here(p)) => t == Found(Some(p), part.offset)
    case Arrived(Merged(_, _)) => part.index.Num? && IsPicked(ChildrenAt(root, path), path, part.index.n / 2, part.offset, t)
  }

  /** What the last part, after the parts of the node at `path`, resolves to. */
  ghost predicate ResolvesTo(root: Node, path: seq<nat>, part: Part, t: Target) {
    if part.index.NaN? then t == Found(None, part.offset)
    else exists w :: StepLeadsTo(path, ChildrenAt(root, path), part.index.n, w) && EndsAt(root, path, part, w, t)
  }

  /** The parts of any element, and one more step of any index and offset: where the standard says. */
  lemma LastStepIs(root: Node, path: seq<nat>, part: Part)
    requires IsPath(root, path) && NodeAt(root, path).Elem? && HasContent(ChildrenAt(root, path))
    requires part.id == "" || forall q :: !HasId(root, q, part.id)
    ensures var r := Resolve(root, PartsOf(root, path, None) + [part]); r.Success? && ResolvesTo(root, path, part, r.value)
  {
    hide ChildrenAt, Descend, PickText, IsPicked, StepLeadsTo, HasId, FindId;
    var parts := PartsOf(root, path, None);
    FindIdIff(root, part.id);
    WalkToElement(root, path);
    WalkAppend(root, Here([]), parts, [part]);
    WalkOne(root, Here(path), part);
    StepIs(root, path, part.index);
    var w := Descend(root, Here(path), part.index).value;
    if w.Arrived? && w.c.Merged? {
      MergedIsChunk(root, path, part.index);
      PickedIs(ChildrenAt(root, path), path, w.c.ks, part.index.n / 2, part.offset);
    }
    if part.index.Num? {
      assert EndsAt(root, path, part, w, Resolve(root, parts + [part]).value);
    }
  }
}
