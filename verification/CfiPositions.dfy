/** From tree positions to step paths and back: printing, parsing and resolving the identifier of a text position finds
    the same point, and comparing identifiers is document order. */
module CfiPositions {
  import opened Wrappers
  import opened CfiSyntax
  import opened CfiDom

  // ----- Where a child stands

  /** The index of child `k`: even for elements, odd for text. */
  function ChildIndex(children: seq<Node>, k: nat): nat
    requires k < |children|
  {
    2 * ElemsBefore(children, k) + if children[k].Elem? then 2 else 1
  }

  function Length(n: Node): nat {
    if n.Text? then |n.data| else 0
  }

  /** The characters of the chunk that ends before child `k`. */
  function CharsBefore(children: seq<Node>, k: nat): nat
    requires k <= |children|
  {
    if k == 0 || children[k - 1].Elem? then 0 else CharsBefore(children, k - 1) + Length(children[k - 1])
  }

  function TotalLength(children: seq<Node>, ks: seq<nat>): nat
    requires forall j :: 0 <= j < |ks| ==> ks[j] < |children|
  {
    if ks == [] then 0 else TotalLength(children, ks[..|ks| - 1]) + Length(children[ks[|ks| - 1]])
  }

  predicate IsChunk(children: seq<Node>, ts: seq<nat>, elems: nat) {
    && (forall j :: 0 <= j < |ts| ==> ts[j] < |children|)
    && (forall j :: 0 <= j < |ts| ==>
          && children[ts[j]].Text?
          && ElemsBefore(children, ts[j]) == elems
          && CharsBefore(children, ts[j]) == TotalLength(children, ts[..j]))
  }

  lemma {:induction false} ElemsMonotone(children: seq<Node>, i: nat, j: nat)
    requires i <= j <= |children|
    ensures ElemsBefore(children, i) <= ElemsBefore(children, j)
    decreases j
  {
    if i < j {
      ElemsMonotone(children, i, j - 1);
    }
  }

  predicate Holds(slot: Slot, k: nat) {
    match slot
    case Chunk(ts) => k in ts
    case Element(e) => e == k
  }

  /** Slot `i` holds exactly the children whose index is `i + 1`. */
  ghost predicate HoldsItsOwn(children: seq<Node>, n: nat, i: nat, slot: Slot)
    requires n <= |children|
  {
    forall k :: 0 <= k < n ==> (Holds(slot, k) <==> !children[k].Other? && i + 1 == ChildIndex(children, k))
  }

  predicate InOrder(children: seq<Node>, n: nat, slot: Slot)
    requires n <= |children|
  {
    match slot
    case Chunk(ts) => forall j :: 0 <= j < |ts| ==> ts[j] < n
    case Element(k) => k < n && children[k].Elem?
  }

  ghost predicate GoodSlot(children: seq<Node>, n: nat, i: nat, slot: Slot)
    requires n <= |children|
  {
    && (slot.Chunk? ==> IsChunk(children, slot.texts, i / 2))
    && InOrder(children, n, slot)
    && HoldsItsOwn(children, n, i, slot)
  }

  ghost predicate GoodSlots(children: seq<Node>, n: nat, slots: seq<Slot>)
    requires n <= |children|
  {
    forall i :: 0 <= i < |slots| ==> GoodSlot(children, n, i, slots[i])
  }

  lemma ChildIndexBound(children: seq<Node>, k: nat, n: nat)
    requires k < n <= |children|
    ensures ChildIndex(children, k) <= 2 * ElemsBefore(children, n) + 1
  {
  }

  lemma ChildIndexBounds(children: seq<Node>, n: nat)
    requires n < |children|
    ensures forall k :: 0 <= k < n ==> ChildIndex(children, k) <= 2 * ElemsBefore(children, n) + 1
    ensures ChildIndex(children, n) == 2 * ElemsBefore(children, n) + if children[n].Elem? then 2 else 1
  {
    hide ElemsBefore;
    forall k | 0 <= k < n
      ensures ChildIndex(children, k) <= 2 * ElemsBefore(children, n) + 1
    {
      hide ChildIndex;
      ChildIndexBound(children, k, n);
    }
  }

  lemma ExtendedTotal(children: seq<Node>, n: nat, ts: seq<nat>)
    requires n < |children| && children[n].Text?
    requires (forall j :: 0 <= j < |ts| ==> ts[j] < |children|) && CharsBefore(children, n) == TotalLength(children, ts)
    ensures CharsBefore(children, n + 1) == TotalLength(children, ts + [n])
  {
    assert (ts + [n])[..|ts|] == ts;
  }

  lemma ExtendedIsChunk(children: seq<Node>, n: nat, elems: nat, ts: seq<nat>)
    requires n < |children| && children[n].Text? && ElemsBefore(children, n) == elems
    requires IsChunk(children, ts, elems) && CharsBefore(children, n) == TotalLength(children, ts)
    ensures IsChunk(children, ts + [n], elems)
  {
    hide ElemsBefore, CharsBefore, TotalLength;
    var ts' := ts + [n];
    assert forall j :: 0 <= j <= |ts| ==> ts'[..j] == ts[..j];
    assert ts[..|ts|] == ts;
  }

  lemma ExtendedChunk(children: seq<Node>, n: nat, i: nat, ts: seq<nat>)
    requires n < |children| && children[n].Text? && i == 2 * ElemsBefore(children, n)
    requires GoodSlot(children, n, i, Chunk(ts)) && CharsBefore(children, n) == TotalLength(children, ts)
    ensures GoodSlot(children, n + 1, i, Chunk(ts + [n]))
    ensures CharsBefore(children, n + 1) == TotalLength(children, ts + [n])
  {
    hide ChildIndex, ElemsBefore, CharsBefore, TotalLength, IsChunk;
    ChildIndexBounds(children, n);
    ExtendedTotal(children, n, ts);
    ExtendedIsChunk(children, n, i / 2, ts);
  }

  lemma KeptSlot(children: seq<Node>, n: nat, i: nat, slot: Slot)
    requires n < |children| && GoodSlot(children, n, i, slot)
    requires children[n].Other? || i + 1 < ChildIndex(children, n)
    ensures GoodSlot(children, n + 1, i, slot)
  {
  }

  lemma NewSlots(children: seq<Node>, n: nat, i: nat)
    requires n < |children| && children[n].Elem? && i == 2 * ElemsBefore(children, n)
    ensures GoodSlot(children, n + 1, i + 1, Element(n)) && GoodSlot(children, n + 1, i + 2, Chunk([]))
  {
    ChildIndexBounds(children, n);
    hide ChildIndex;
  }

  /** Every slot is good, and the last chunk is what `CharsBefore` counts. */
  ghost predicate WellLaid(children: seq<Node>, n: nat, slots: seq<Slot>)
    requires n <= |children|
  {
    && GoodSlots(children, n, slots)
    && |slots| == 2 * ElemsBefore(children, n) + 1
    && var last := slots[|slots| - 1]; last.Chunk? && CharsCounted(children, n, last.texts)
  }

  predicate CharsCounted(children: seq<Node>, n: nat, ts: seq<nat>)
    requires n <= |children|
  {
    && (forall j :: 0 <= j < |ts| ==> ts[j] < |children|)
    && CharsBefore(children, n) == TotalLength(children, ts)
  }

  lemma ExtendKeepsCount(children: seq<Node>, n: nat, slots: seq<Slot>)
    requires n < |children| && WellLaid(children, n, slots)
    ensures var next := Extend(slots, children[n], n);
            && |next| == 2 * ElemsBefore(children, n + 1) + 1
            && CharsCounted(children, n + 1, next[|next| - 1].texts)
  {
    hide TotalLength, CharsBefore, ElemsBefore, GoodSlots;
    OneMore(children, n);
    NoLength(children);
    if children[n].Text? {
      ExtendedTotal(children, n, slots[|slots| - 1].texts);
    }
  }

  lemma OneMore(children: seq<Node>, n: nat)
    requires n < |children|
    ensures ElemsBefore(children, n + 1) == ElemsBefore(children, n) + if children[n].Elem? then 1 else 0
    ensures CharsBefore(children, n + 1) == if children[n].Elem? then 0 else CharsBefore(children, n) + Length(children[n])
  {
  }

  /** The slots from the last chunk on, after one more child. */
  lemma ExtendLastSlots(children: seq<Node>, n: nat, slots: seq<Slot>, i: nat)
    requires n < |children| && WellLaid(children, n, slots)
    requires |slots| - 1 <= i < |Extend(slots, children[n], n)|
    ensures GoodSlot(children, n + 1, i, Extend(slots, children[n], n)[i])
  {
    hide ElemsBefore, ChildIndex, GoodSlot, CharsBefore, TotalLength;
    var last := |slots| - 1;
    ChildIndexBounds(children, n);
    assert GoodSlot(children, n, last, slots[last]);
    if children[n].Text? {
      ExtendedChunk(children, n, last, slots[last].texts);
    } else {
      KeptSlot(children, n, last, slots[last]);
      if children[n].Elem? {
        NewSlots(children, n, last);
      }
    }
  }

  lemma ExtendKeepsSlots(children: seq<Node>, n: nat, slots: seq<Slot>)
    requires n < |children| && WellLaid(children, n, slots)
    ensures GoodSlots(children, n + 1, Extend(slots, children[n], n))
  {
    hide ElemsBefore, ChildIndex, GoodSlot, CharsCounted;
    var next := Extend(slots, children[n], n);
    ChildIndexBounds(children, n);
    forall i | 0 <= i < |next|
      ensures GoodSlot(children, n + 1, i, next[i])
    {
      if i < |slots| - 1 {
        assert GoodSlot(children, n, i, slots[i]);
        KeptSlot(children, n, i, slots[i]);
      } else {
        ExtendLastSlots(children, n, slots, i);
      }
    }
  }

  lemma ExtendIsWellLaid(children: seq<Node>, n: nat, slots: seq<Slot>)
    requires n < |children| && WellLaid(children, n, slots)
    ensures WellLaid(children, n + 1, Extend(slots, children[n], n))
  {
    hide GoodSlots, CharsCounted, ElemsBefore;
    ExtendKeepsCount(children, n, slots);
    ExtendKeepsSlots(children, n, slots);
  }

  lemma StartIsWellLaid(children: seq<Node>)
    ensures WellLaid(children, 0, [Chunk([])])
  {
  }

  lemma {:induction false} LayoutIsWellLaid(children: seq<Node>, n: nat)
    requires n <= |children|
    ensures WellLaid(children, n, Layout(children, n))
  {
    hide WellLaid, Extend;
    if n == 0 {
      StartIsWellLaid(children);
    } else {
      LayoutIsWellLaid(children, n - 1);
      ExtendIsWellLaid(children, n - 1, Layout(children, n - 1));
    }
  }

  predicate Mentions(e: Entry, k: nat) {
    (e.One? && e.k == k) || (e.Many? && k in e.ks)
  }

  /** The entry of a child: itself, or the chunk it is merged into. */
  ghost predicate EntryOf(children: seq<Node>, k: nat, e: Entry)
    requires k < |children|
  {
    match e
    case One(j) => j == k && (children[k].Text? ==> CharsBefore(children, k) == 0)
    case Many(ts) => children[k].Text? && k in ts && IsChunk(children, ts, ElemsBefore(children, k))
    case _ => false
  }

  lemma IndexedAt(children: seq<Node>, i: nat)
    requires i <= |Layout(children, |children|)| + 1
    ensures var slots := Layout(children, |children|);
            && |Indexed(children)| == |slots| + 2
            && Indexed(children)[i] == if i == 0 then Before else if i > |slots| then After else EntryAt(slots, i - 1)
  {
  }

  lemma ChildIndexInRange(children: seq<Node>, k: nat)
    requires k < |children|
    ensures 1 <= ChildIndex(children, k) <= 2 * ElemsBefore(children, |children|) + 1
  {
    ElemsMonotone(children, k + 1, |children|);
  }

  lemma HolderOfChild(children: seq<Node>, k: nat)
    requires k < |children| && !children[k].Other?
    ensures var i, slots := ChildIndex(children, k), Layout(children, |children|);
            1 <= i <= |slots| && Holds(slots[i - 1], k)
  {
    hide ElemsBefore, ChildIndex, Layout, Holds, IsChunk;
    LayoutIsWellLaid(children, |children|);
    ChildIndexInRange(children, k);
    var i, slots := ChildIndex(children, k), Layout(children, |children|);
    assert GoodSlot(children, |children|, i - 1, slots[i - 1]);
    assert HoldsItsOwn(children, |children|, i - 1, slots[i - 1]);
  }

  lemma EntryOfSlot(children: seq<Node>, slots: seq<Slot>, i: nat, k: nat)
    requires i < |slots| && GoodSlots(children, |children|, slots)
    requires k < |children| && Holds(slots[i], k)
    ensures EntryOf(children, k, EntryAt(slots, i))
  {
  }

  lemma EntryOfChild(children: seq<Node>, k: nat)
    requires k < |children| && !children[k].Other?
    ensures HasContent(children)
    ensures ChildIndex(children, k) < |Indexed(children)|
    ensures EntryOf(children, k, Indexed(children)[ChildIndex(children, k)])
  {
    hide Indexed, Layout, ElemsBefore, ChildIndex, EntryOf, EntryAt, GoodSlots, Holds;
    HolderOfChild(children, k);
    LayoutIsWellLaid(children, |children|);
    var i, slots := ChildIndex(children, k), Layout(children, |children|);
    IndexedAt(children, i);
    EntryOfSlot(children, slots, i - 1, k);
  }

  lemma SlotMentions(children: seq<Node>, slots: seq<Slot>, i: nat, k: nat)
    requires i < |slots| && GoodSlots(children, |children|, slots)
    requires k < |children| && !children[k].Other?
    ensures Mentions(EntryAt(slots, i), k) <==> i + 1 == ChildIndex(children, k)
  {
  }

  lemma OnlyItsEntryMentions(children: seq<Node>, k: nat, i: nat)
    requires k < |children| && !children[k].Other? && i < |Indexed(children)|
    ensures Mentions(Indexed(children)[i], k) <==> i == ChildIndex(children, k)
  {
    hide Indexed, Layout, ElemsBefore, ChildIndex, EntryAt, GoodSlots, Holds;
    HolderOfChild(children, k);
    LayoutIsWellLaid(children, |children|);
    var slots := Layout(children, |children|);
    IndexedAt(children, 0);
    IndexedAt(children, i);
    if 0 < i <= |slots| {
      SlotMentions(children, slots, i - 1, k);
    }
  }

  /** `findIndex`: the first entry that mentions the child, or -1. */
  function FindEntry(entries: seq<Entry>, k: nat): int {
    if entries == [] then -1
    else if Mentions(entries[0], k) then 0
    else var rest := FindEntry(entries[1..], k); if rest < 0 then -1 else 1 + rest
  }

  lemma {:induction false} FindEntryIs(entries: seq<Entry>, k: nat, at: nat)
    requires at < |entries| && forall i :: 0 <= i < |entries| ==> (Mentions(entries[i], k) <==> i == at)
    ensures FindEntry(entries, k) == at
  {
    hide Mentions;
    if at > 0 {
      assert !Mentions(entries[0], k);
      forall i | 0 <= i < |entries[1..]|
        ensures Mentions(entries[1..][i], k) <==> i == at - 1
      {
        assert entries[1..][i] == entries[i + 1];
      }
      FindEntryIs(entries[1..], k, at - 1);
    }
  }

  lemma FindChild(children: seq<Node>, k: nat)
    requires k < |children| && !children[k].Other?
    ensures FindEntry(Indexed(children), k) == ChildIndex(children, k)
  {
    EntryOfChild(children, k);
    var entries := Indexed(children);
    hide Indexed, Mentions, ChildIndex;
    forall i | 0 <= i < |entries|
      ensures Mentions(entries[i], k) <==> i == ChildIndex(children, k)
    {
      OnlyItsEntryMentions(children, k, i);
    }
    FindEntryIs(entries, k, ChildIndex(children, k));
  }

  /** A comment is not among the entries. */
  lemma CommentIsNotFound(children: seq<Node>, k: nat)
    requires k < |children| && children[k].Other?
    ensures FindEntry(Indexed(children), k) == -1
  {
    hide Indexed, Layout, EntryAt, GoodSlots;
    var entries, slots := Indexed(children), Layout(children, |children|);
    LayoutIsWellLaid(children, |children|);
    IndexedAt(children, 0);
    forall i | 0 <= i < |entries|
      ensures !Mentions(entries[i], k)
    {
      IndexedAt(children, i);
      if 0 < i <= |slots| {
        NoCommentMentioned(children, slots, i - 1, k);
      }
    }
    NothingFound(entries, k);
  }

  lemma NoCommentMentioned(children: seq<Node>, slots: seq<Slot>, i: nat, k: nat)
    requires i < |slots| && GoodSlots(children, |children|, slots)
    requires k < |children| && children[k].Other?
    ensures !Mentions(EntryAt(slots, i), k)
  {
    assert GoodSlot(children, |children|, i, slots[i]);
  }

  lemma {:induction false} NothingFound(entries: seq<Entry>, k: nat)
    requires forall i :: 0 <= i < |entries| ==> !Mentions(entries[i], k)
    ensures FindEntry(entries, k) == -1
  {
    hide Mentions;
    if entries != [] {
      assert !Mentions(entries[0], k);
      NothingFound(entries[1..], k);
    }
  }

  // ----- From a node to its parts

  function IdOf(n: Node): string {
    if n.Elem? then n.id else ""
  }

  /** One step: the index, the id, and the offset as if the text nodes of the chunk were merged. */
  function PartOf(children: seq<Node>, k: nat, offset: Option<nat>): Part
    requires k < |children|
  {
    var merged := if children[k].Text? then CharsBefore(children, k) else 0;
    Part(Num(ChildIndex(children, k)), IdOf(children[k]),
         if offset.Some? then Some(Num(merged + offset.value)) else None, "", [], [], "")
  }

  function PartsOf(root: Node, path: seq<nat>, offset: Option<nat>): (parts: Path)
    requires IsPath(root, path)
    ensures |parts| == |path|
    decreases path
  {
    if path == [] then []
    else [PartOf(root.children, path[0], if |path| == 1 then offset else None)]
         + PartsOf(root.children[path[0]], path[1..], offset)
  }

  lemma {:induction false} PartsOfAppend(root: Node, path: seq<nat>, k: nat, offset: Option<nat>)
    requires IsPath(root, path + [k])
    ensures IsPath(root, path) && NodeAt(root, path).Elem? && k < |NodeAt(root, path).children|
    ensures PartsOf(root, path + [k], offset) ==
            PartsOf(root, path, None) + [PartOf(NodeAt(root, path).children, k, offset)]
    decreases path
  {
    PathAppend(root, path, k);
    hide PartOf;
    if path == [] {
      assert [k][1..] == [];
    } else {
      assert (path + [k])[1..] == path[1..] + [k];
      PartsOfAppend(root.children[path[0]], path[1..], k, offset);
    }
  }

  /** What the part for each node on the way says: twice the elements before it and two for an element, one for text; its id;
      and, for the last one, the offset, counted from the element before a text. */
  lemma {:induction false} PartSays(root: Node, path: seq<nat>, offset: Option<nat>, i: nat)
    requires IsPath(root, path) && i < |path|
    ensures IsPath(root, path[..i]) && NodeAt(root, path[..i]).Elem? && path[i] < |NodeAt(root, path[..i]).children|
    ensures var siblings, k, part := NodeAt(root, path[..i]).children, path[i], PartsOf(root, path, offset)[i];
            var node := siblings[k];
            && NodeAt(root, path[..i + 1]) == node
            && part.index == Num(2 * ElemsBefore(siblings, k) + if node.Elem? then 2 else 1)
            && part.id == (if node.Elem? then node.id else "")
            && part.offset == (if i < |path| - 1 || offset == None then None
                               else Some(Num(offset.value + if node.Text? then CharsBefore(siblings, k) else 0)))
            && part.temporal == "" && part.spatial == [] && part.text == [] && part.side == ""
    decreases path
  {
    hide ElemsBefore, CharsBefore;
    if i > 0 {
      PartSays(root.children[path[0]], path[1..], offset, i - 1);
      assert path[..i][1..] == path[1..][..i - 1] && path[..i + 1][1..] == path[1..][..i];
    } else {
      assert path[..1][1..] == [];
    }
  }

  /** The loop that adds up the text of a chunk before a node. */
  lemma {:induction false} TotalLengthStep(children: seq<Node>, ts: seq<nat>, j: nat)
    requires j < |ts| && forall i :: 0 <= i < |ts| ==> ts[i] < |children|
    ensures TotalLength(children, ts[..j + 1]) == TotalLength(children, ts[..j]) + Length(children[ts[j]])
  {
    assert ts[..j + 1][..j] == ts[..j];
  }

  lemma NoLength(children: seq<Node>)
    ensures TotalLength(children, []) == 0
  {
  }

  /** A node other than the document element, and not a comment. A text node needs an offset. */
  predicate IsTarget(root: Node, path: seq<nat>, offset: Option<nat>) {
    && path != [] && IsPath(root, path) && !NodeAt(root, path).Other?
    && (NodeAt(root, path).Text? ==> offset.Some?)
  }

  method MergedOffset(children: seq<Node>, chunk: seq<nat>, k: nat, offset: nat) returns (sum: nat)
    requires k < |children| && k in chunk && IsChunk(children, chunk, ElemsBefore(children, k))
    ensures sum == CharsBefore(children, k) + offset
  {
    hide TotalLength, CharsBefore, ElemsBefore;
    sum := 0;
    NoLength(children);
    for j := 0 to |chunk|
      invariant sum == TotalLength(children, chunk[..j])
      invariant k !in chunk[..j]
    {
      if chunk[j] == k {
        return sum + offset;
      }
      TotalLengthStep(children, chunk, j);
      sum := sum + Length(children[chunk[j]]);
    }
    assert false;
  }

  method NodeToParts(root: Node, path: seq<nat>, offset: Option<nat>) returns (parts: Path)
    requires IsTarget(root, path, offset)
    ensures parts == PartsOf(root, path, offset)
    decreases |path|
  {
    hide Indexed, ChildIndex, PartsOf, NodeAt, IsPath, IsChunk, CharsBefore, ElemsBefore, FindEntry;
    var parentPath, k := path[..|path| - 1], path[|path| - 1];
    assert path == parentPath + [k];
    PathAppend(root, parentPath, k);
    PartsOfAppend(root, parentPath, k, offset);
    var children := NodeAt(root, parentPath).children;
    EntryOfChild(children, k);
    FindChild(children, k);
    var indexed := IndexChildNodes(children);
    var index := FindEntry(indexed, k);
    var chunk := indexed[index];
    var adjusted := offset;
    if chunk.Many? {
      var sum := MergedOffset(children, chunk.ks, k, offset.value);
      adjusted := Some(sum);
    }
    var part := Part(Num(index), IdOf(children[k]), if adjusted.Some? then Some(Num(adjusted.value)) else None, "", [], [], "");
    assert part == PartOf(children, k, offset);
    if parentPath != [] {
      var before := NodeToParts(root, parentPath, None);
      parts := before + [part];
    } else {
      parts := [part];
      EmptyPathHasNoParts(root);
    }
  }

  lemma EmptyPathHasNoParts(root: Node)
    ensures IsPath(root, []) && PartsOf(root, [], None) == []
  {
  }
}
