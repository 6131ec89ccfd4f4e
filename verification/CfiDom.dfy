/** Document trees, and the indexing of child nodes that steps refer to. */
module CfiDom {

  /** Text and CDATA nodes are `Text`; comments and processing instructions are `Other`. A node is identified by the
      child positions that lead to it from the document element. */
  datatype Node = Text(data: string) | Elem(id: string, children: seq<Node>) | Other

  function NodeAt(root: Node, path: seq<nat>): Node
    decreases path
  {
    if path == [] then root
    else if root.Elem? && path[0] < |root.children| then NodeAt(root.children[path[0]], path[1..])
    else Other
  }

  predicate IsPath(root: Node, path: seq<nat>)
    decreases path
  {
    path == [] || (root.Elem? && path[0] < |root.children| && IsPath(root.children[path[0]], path[1..]))
  }

  lemma {:induction false} PathAppend(root: Node, path: seq<nat>, k: nat)
    ensures NodeAt(root, path + [k]) ==
            var n := NodeAt(root, path); if n.Elem? && k < |n.children| then n.children[k] else Other
    ensures IsPath(root, path + [k]) <==> IsPath(root, path) && NodeAt(root, path).Elem? && k < |NodeAt(root, path).children|
    decreases path
  {
    if path == [] {
      assert [k][1..] == [];
    } else {
      assert (path + [k])[1..] == path[1..] + [k];
      if root.Elem? && path[0] < |root.children| {
        PathAppend(root.children[path[0]], path[1..], k);
      }
    }
  }

  // ----- Indexing child nodes

  predicate HasContent(children: seq<Node>) {
    exists k :: 0 <= k < |children| && !children[k].Other?
  }

  /** Child elements and the chunks of text around them. */
  datatype Slot = Chunk(texts: seq<nat>) | Element(k: nat)

  /** The prescribed layout of the first `n` children: a chunk, then an element and a chunk for each child element. */
  function Layout(children: seq<Node>, n: nat): (slots: seq<Slot>)
    requires n <= |children|
    ensures slots != [] && slots[|slots| - 1].Chunk?
    ensures |slots| == 2 * ElemsBefore(children, n) + 1
  {
    if n == 0 then [Chunk([])] else Extend(Layout(children, n - 1), children[n - 1], n - 1)
  }

  function Extend(slots: seq<Slot>, node: Node, n: nat): (next: seq<Slot>)
    requires slots != [] && slots[|slots| - 1].Chunk?
    ensures next != [] && next[|next| - 1].Chunk?
    ensures |next| == |slots| + if node.Elem? then 2 else 0
  {
    var last := |slots| - 1;
    match node
    case Text(_) => slots[last := Chunk(slots[last].texts + [n])]
    case Elem(_, _) => slots + [Element(n), Chunk([])]
    case Other => slots
  }

  function ElemsBefore(children: seq<Node>, n: nat): nat
    requires n <= |children|
  {
    if n == 0 then 0 else ElemsBefore(children, n - 1) + if children[n - 1].Elem? then 1 else 0
  }

  /** What stands at one index; a single text node stands by itself, several in an array. */
  datatype Entry = Before | After | First | Last | Gap | One(k: nat) | Many(ks: seq<nat>)

  function BareEntry(slot: Slot): Entry {
    match slot
    case Element(k) => One(k)
    case Chunk(ts) => if ts == [] then Gap else if |ts| == 1 then One(ts[0]) else Many(ts)
  }

  function EntryAt(slots: seq<Slot>, i: nat): Entry
    requires i < |slots|
  {
    if BareEntry(slots[i]) != Gap then BareEntry(slots[i])
    else if i == 0 then First
    else if i == |slots| - 1 then Last
    else Gap
  }

  function Indexed(children: seq<Node>): (entries: seq<Entry>) {
    var slots := Layout(children, |children|);
    [Before] + seq(|slots|, i requires 0 <= i < |slots| => EntryAt(slots, i)) + [After]
  }

  /** The first and the last chunk are not in the array while they are empty. */
  function Started(slots: seq<Slot>): seq<Slot> {
    if slots != [] && slots[0] == Chunk([]) then slots[1..] else slots
  }

  function Ended(slots: seq<Slot>): seq<Slot> {
    if slots != [] && slots[|slots| - 1] == Chunk([]) then slots[..|slots| - 1] else slots
  }

  function Bare(slots: seq<Slot>): (entries: seq<Entry>)
    ensures |entries| == |slots|
  {
    seq(|slots|, i requires 0 <= i < |slots| => BareEntry(slots[i]))
  }

  function Arranged(slots: seq<Slot>): seq<Entry> {
    Bare(Ended(Started(slots)))
  }

  predicate IsText(children: seq<Node>, e: Entry) {
    e.One? && e.k < |children| && children[e.k].Text?
  }

  predicate IsElement(children: seq<Node>, e: Entry) {
    e.One? && e.k < |children| && children[e.k].Elem?
  }

  predicate IsSlot(children: seq<Node>, n: nat, i: nat, slot: Slot)
    requires n <= |children|
  {
    match slot
    case Chunk(ts) => i % 2 == 0 && forall j :: 0 <= j < |ts| ==> ts[j] < n && children[ts[j]].Text?
    case Element(k) => i % 2 == 1 && k < n && children[k].Elem?
  }

  /** Chunks and elements alternate. */
  ghost predicate Shaped(children: seq<Node>, n: nat, slots: seq<Slot>)
    requires n <= |children|
  {
    forall i :: 0 <= i < |slots| ==> IsSlot(children, n, i, slots[i])
  }

  lemma {:induction false} LayoutShape(children: seq<Node>, n: nat)
    requires n <= |children|
    ensures Shaped(children, n, Layout(children, n))
  {
    hide Shaped, Extend;
    if n == 0 {
      StartShape(children);
    } else {
      LayoutShape(children, n - 1);
      ExtendShape(children, n - 1, Layout(children, n - 1));
    }
  }

  lemma StartShape(children: seq<Node>)
    ensures Shaped(children, 0, [Chunk([])])
  {
  }

  lemma ExtendShape(children: seq<Node>, n: nat, slots: seq<Slot>)
    requires n < |children| && slots != [] && slots[|slots| - 1].Chunk? && Shaped(children, n, slots)
    ensures Shaped(children, n + 1, Extend(slots, children[n], n))
  {
    var next := Extend(slots, children[n], n);
    forall i | 0 <= i < |next|
      ensures IsSlot(children, n + 1, i, next[i])
    {
      if i < |slots| {
        assert IsSlot(children, n, i, slots[i]);
      } else {
        assert IsSlot(children, n, |slots| - 1, slots[|slots| - 1]);
      }
    }
  }

  /** What one turn of the reduction does to the array. */
  function Arrange(children: seq<Node>, arr: seq<Entry>, n: nat): seq<Entry>
    requires n < |children|
  {
    var last := |arr| - 1;
    match children[n]
    case Other => arr
    case Text(_) =>
      if arr != [] && arr[last].Many? then arr[..last] + [Many(arr[last].ks + [n])]
      else if arr != [] && IsText(children, arr[last]) then arr[..last] + [Many([arr[last].k, n])]
      else arr + [One(n)]
    case Elem(_, _) =>
      if arr != [] && IsElement(children, arr[last]) then arr + [Gap, One(n)] else arr + [One(n)]
  }

  /** The array without its last entry when the last chunk is not empty. */
  lemma ArrangedSplit(slots: seq<Slot>, ts: seq<nat>)
    requires ts != []
    ensures Arranged(slots + [Chunk(ts)]) == Bare(Started(slots)) + [BareEntry(Chunk(ts))]
  {
  }

  lemma ArrangedEmpty(slots: seq<Slot>)
    ensures Arranged(slots + [Chunk([])]) == Bare(Started(slots))
  {
  }

  /** The slots before the last chunk end with a child element, if there are any. */
  predicate EndsWithElement(children: seq<Node>, slots: seq<Slot>) {
    slots != [] ==> slots[|slots| - 1].Element? && IsElement(children, One(slots[|slots| - 1].k))
  }

  lemma ArrangeText(children: seq<Node>, slots: seq<Slot>, ts: seq<nat>, n: nat)
    requires n < |children| && children[n].Text? && EndsWithElement(children, slots)
    requires forall j :: 0 <= j < |ts| ==> ts[j] < |children| && children[ts[j]].Text?
    ensures Arranged(slots + [Chunk(ts + [n])]) == Arrange(children, Arranged(slots + [Chunk(ts)]), n)
  {
    hide Arranged;
    ArrangedSplit(slots, ts + [n]);
    var before := Bare(Started(slots));
    if ts == [] {
      ArrangedEmpty(slots);
    } else {
      ArrangedSplit(slots, ts);
      assert (before + [BareEntry(Chunk(ts))])[..|before|] == before;
      if |ts| == 1 {
        assert [ts[0], n] == ts + [n];
      }
    }
  }

  lemma ArrangeElement(children: seq<Node>, slots: seq<Slot>, ts: seq<nat>, n: nat)
    requires n < |children| && children[n].Elem? && EndsWithElement(children, slots)
    requires forall j :: 0 <= j < |ts| ==> ts[j] < |children| && children[ts[j]].Text?
    ensures Arranged(slots + [Chunk(ts)] + [Element(n)] + [Chunk([])]) == Arrange(children, Arranged(slots + [Chunk(ts)]), n)
  {
    hide Arranged, Started;
    ArrangedEmpty(slots + [Chunk(ts)] + [Element(n)]);
    ArrangedElement(slots, ts, n);
    var before := Bare(Started(slots));
    if ts != [] {
      ArrangedSplit(slots, ts);
      assert before + [BareEntry(Chunk(ts)), One(n)] == before + [BareEntry(Chunk(ts))] + [One(n)];
    } else {
      ArrangedEmpty(slots);
      if slots == [] {
        NothingStarted();
      } else {
        StartedEnd(slots);
      }
    }
  }

  lemma NothingStarted()
    ensures Started([]) == []
  {
  }

  lemma StartedEnd(slots: seq<Slot>)
    requires slots != [] && slots[|slots| - 1].Element?
    ensures Started(slots) != [] && Started(slots)[|Started(slots)| - 1] == slots[|slots| - 1]
  {
  }

  lemma ArrangeOther(children: seq<Node>, arr: seq<Entry>, n: nat)
    requires n < |children| && children[n].Other?
    ensures Arrange(children, arr, n) == arr
  {
  }

  lemma ArrangedNext(children: seq<Node>, n: nat)
    requires n < |children|
    ensures Arranged(Layout(children, n + 1)) == Arrange(children, Arranged(Layout(children, n)), n)
  {
    hide Arranged, Arrange;
    LayoutShape(children, n);
    var slots, next := Layout(children, n), Layout(children, n + 1);
    var k := |slots| - 1;
    var ts := slots[k].texts;
    assert IsSlot(children, n, k, slots[k]);
    assert slots == slots[..k] + [Chunk(ts)];
    if k > 0 {
      assert IsSlot(children, n, k - 1, slots[k - 1]);
    }
    match children[n] {
      case Other =>
        ArrangeOther(children, Arranged(slots), n);
      case Text(_) =>
        assert next == slots[..k] + [Chunk(ts + [n])];
        ArrangeText(children, slots[..k], ts, n);
      case Elem(_, _) =>
        assert next == slots[..k] + [Chunk(ts)] + [Element(n)] + [Chunk([])];
        ArrangeElement(children, slots[..k], ts, n);
    }
  }

  lemma ArrangedElement(slots: seq<Slot>, ts: seq<nat>, n: nat)
    ensures Bare(Started(slots + [Chunk(ts)] + [Element(n)])) ==
            if slots == [] && ts == [] then [One(n)]
            else Bare(Started(slots)) + [BareEntry(Chunk(ts)), One(n)]
  {
  }

  /** The reduction over the child nodes, then the virtual first and last nodes. */
  method IndexChildNodes(children: seq<Node>) returns (nodes: seq<Entry>)
    requires HasContent(children)
    ensures nodes == Indexed(children)
  {
    nodes := [];
    hide Layout, Arranged, Indexed;
    assert nodes == Arranged(Layout(children, 0)) by {
      ArrangedEmpty([]);
      LayoutStart(children);
    }
    for n := 0 to |children|
      invariant nodes == Arranged(Layout(children, n))
    {
      ArrangedNext(children, n);
      if children[n].Other? {
        continue;
      }
      if nodes == [] {
        nodes := [One(n)];
      } else {
        var last := nodes[|nodes| - 1];
        if children[n].Text? {
          if last.Many? {
            nodes := nodes[..|nodes| - 1] + [Many(last.ks + [n])];
          } else if IsText(children, last) {
            nodes := nodes[..|nodes| - 1] + [Many([last.k, n])];
          } else {
            nodes := nodes + [One(n)];
          }
        } else if IsElement(children, last) {
          nodes := nodes + [Gap, One(n)];
        } else {
          nodes := nodes + [One(n)];
        }
      }
    }
    ArrangedEnds(children);
    if IsElement(children, nodes[0]) {
      nodes := [First] + nodes;
    }
    if IsElement(children, nodes[|nodes| - 1]) {
      nodes := nodes + [Last];
    }
    nodes := [Before] + nodes + [After];
  }

  lemma LayoutStart(children: seq<Node>)
    ensures Layout(children, 0) == [] + [Chunk([])]
    ensures Bare(Started([])) == []
  {
  }

  lemma {:induction false} ContentIsLaidOut(children: seq<Node>, n: nat)
    requires n <= |children| && Layout(children, n) == [Chunk([])]
    ensures forall k :: 0 <= k < n ==> children[k].Other?
  {
    if n > 0 {
      var slots := Layout(children, n - 1);
      if |slots| == 1 && children[n - 1].Other? {
        ContentIsLaidOut(children, n - 1);
      }
    }
  }

  lemma EntriesOfSlots(slots: seq<Slot>)
    requires slots != [] && slots != [Chunk([])]
    ensures seq(|slots|, i requires 0 <= i < |slots| => EntryAt(slots, i)) ==
            (if slots[0] == Chunk([]) then [First] else [])
            + Arranged(slots)
            + (if slots[|slots| - 1] == Chunk([]) then [Last] else [])
  {
  }

  lemma ArrangedEnds(children: seq<Node>)
    requires HasContent(children)
    ensures var arr := Arranged(Layout(children, |children|));
            && arr != []
            && var first := if IsElement(children, arr[0]) then [First] else [];
               var last := if IsElement(children, arr[|arr| - 1]) then [Last] else [];
               Indexed(children) == [Before] + (first + arr + last) + [After]
  {
    hide Layout, EntryAt, Arranged, Shaped, IsElement;
    LayoutShape(children, |children|);
    var slots := Layout(children, |children|);
    if slots == [Chunk([])] {
      ContentIsLaidOut(children, |children|);
    }
    OuterSlots(children, slots);
    EntriesOfSlots(slots);
    EndsOfArranged(children, slots);
  }

  lemma OuterSlots(children: seq<Node>, slots: seq<Slot>)
    requires slots != [] && |slots| % 2 == 1 && Shaped(children, |children|, slots)
    ensures slots[0].Chunk? && slots[|slots| - 1].Chunk?
    ensures forall j :: 0 <= j < |slots[0].texts| ==> slots[0].texts[j] < |children| && children[slots[0].texts[j]].Text?
    ensures var ts := slots[|slots| - 1].texts; forall j :: 0 <= j < |ts| ==> ts[j] < |children| && children[ts[j]].Text?
    ensures |slots| > 1 ==> |slots| > 2 && slots[1].Element? && slots[|slots| - 2].Element?
    ensures |slots| > 1 ==> IsElement(children, One(slots[1].k)) && IsElement(children, One(slots[|slots| - 2].k))
  {
    var k := |slots| - 1;
    assert IsSlot(children, |children|, 0, slots[0]) && IsSlot(children, |children|, k, slots[k]);
    if k > 0 {
      assert IsSlot(children, |children|, 1, slots[1]) && IsSlot(children, |children|, k - 1, slots[k - 1]);
    }
  }

  lemma EndsOfArranged(children: seq<Node>, slots: seq<Slot>)
    requires |slots| > 0 && slots != [Chunk([])]
    requires slots[0].Chunk? && slots[|slots| - 1].Chunk?
    requires forall j :: 0 <= j < |slots[0].texts| ==> slots[0].texts[j] < |children| && children[slots[0].texts[j]].Text?
    requires var ts := slots[|slots| - 1].texts; forall j :: 0 <= j < |ts| ==> ts[j] < |children| && children[ts[j]].Text?
    requires |slots| > 1 ==> |slots| > 2 && slots[1].Element? && slots[|slots| - 2].Element?
    requires |slots| > 1 ==> IsElement(children, One(slots[1].k)) && IsElement(children, One(slots[|slots| - 2].k))
    ensures var arr := Arranged(slots);
            && arr != []
            && (IsElement(children, arr[0]) <==> slots[0] == Chunk([]))
            && (IsElement(children, arr[|arr| - 1]) <==> slots[|slots| - 1] == Chunk([]))
  {
  }
}
