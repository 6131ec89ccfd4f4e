/** KF8 sections: a skeleton into which fragments are spliced one after the other. */
module Kf8 {
  import opened Wrappers
  import opened Bytes

  datatype Skeleton = Skeleton(numFrag: nat, offset: nat, length: nat)
  datatype Fragment = Fragment(index: nat, insertOffset: int, offset: nat, length: nat)
  datatype Section = Section(skel: Skeleton, frags: seq<Fragment>, fragEnd: nat, length: nat, totalLength: nat)

  // ----- The section table

  /** `slice` of the fragment table, which is cut off at its end. */
  function SliceFragments(table: seq<Fragment>, start: nat, end: nat): seq<Fragment>
    requires start <= end
  {
    table[Min(start, |table|)..Min(end, |table|)]
  }

  function TotalLength(frags: seq<Fragment>): nat {
    if frags == [] then 0 else frags[0].length + TotalLength(frags[1..])
  }

  /** The reduction over the skeleton table. */
  function SectionsFrom(skels: seq<Skeleton>, table: seq<Fragment>, fragStart: nat, total: nat): (sections: seq<Section>)
    ensures |sections| == |skels|
  {
    if skels == [] then [] else
    var skel := skels[0];
    var fragEnd := fragStart + skel.numFrag;
    var frags := SliceFragments(table, fragStart, fragEnd);
    var length := skel.length + TotalLength(frags);
    [Section(skel, frags, fragEnd, length, total + length)] + SectionsFrom(skels[1..], table, fragEnd, total + length)
  }

  function FragmentsOf(sections: seq<Section>): seq<Fragment> {
    if sections == [] then [] else sections[0].frags + FragmentsOf(sections[1..])
  }

  function SumLengths(sections: seq<Section>): nat {
    if sections == [] then 0 else sections[0].length + SumLengths(sections[1..])
  }

  function LastFragEnd(sections: seq<Section>, fragStart: nat): nat {
    if sections == [] then fragStart else sections[|sections| - 1].fragEnd
  }

  /** Together the sections take one run of the fragment table, in order and without gap or overlap. */
  lemma {:induction false} SectionsTakeOneRun(skels: seq<Skeleton>, table: seq<Fragment>, fragStart: nat, total: nat)
    ensures var sections := SectionsFrom(skels, table, fragStart, total);
            && fragStart <= LastFragEnd(sections, fragStart)
            && FragmentsOf(sections) == SliceFragments(table, fragStart, LastFragEnd(sections, fragStart))
            && (sections != [] ==> sections[|sections| - 1].totalLength == total + SumLengths(sections))
    decreases |skels|
  {
    if skels != [] {
      var sections := SectionsFrom(skels, table, fragStart, total);
      var first, rest := sections[0], sections[1..];
      SectionsTakeOneRun(skels[1..], table, first.fragEnd, first.totalLength);
      assert rest == SectionsFrom(skels[1..], table, first.fragEnd, first.totalLength);
      if rest == [] {
        assert SumLengths(rest) == 0 && FragmentsOf(rest) == [];
      } else {
        assert sections[|sections| - 1] == rest[|rest| - 1];
      }
      JoinRuns(table, fragStart, first.fragEnd, LastFragEnd(sections, fragStart));
    }
  }

  lemma JoinRuns(table: seq<Fragment>, a: nat, b: nat, c: nat)
    requires a <= b <= c
    ensures SliceFragments(table, a, b) + SliceFragments(table, b, c) == SliceFragments(table, a, c)
  {
  }

  /** Each section starts where the one before it ended. */
  lemma {:induction false} SectionTakesItsRun(skels: seq<Skeleton>, table: seq<Fragment>, fragStart: nat, total: nat, i: nat)
    requires i < |skels|
    ensures var sections := SectionsFrom(skels, table, fragStart, total);
            var start := LastFragEnd(sections[..i], fragStart);
            && sections[i].fragEnd == start + skels[i].numFrag
            && sections[i].frags == SliceFragments(table, start, sections[i].fragEnd)
            && sections[i].length == skels[i].length + TotalLength(sections[i].frags)
    decreases i
  {
    hide SliceFragments, TotalLength;
    if i > 0 {
      var sections := SectionsFrom(skels, table, fragStart, total);
      var first := sections[0];
      SectionTakesItsRun(skels[1..], table, first.fragEnd, first.totalLength, i - 1);
      var rest := SectionsFrom(skels[1..], table, first.fragEnd, first.totalLength);
      assert sections == [first] + rest;
      assert sections[..i] == [first] + rest[..i - 1];
    }
  }

  // ----- Assembling a section

  /** Where `slice` cuts: negative positions count from the end, and all are brought into range. */
  function Cut(length: nat, position: int): (c: nat)
    ensures c <= length
  {
    if position >= 0 then Min(position, length) else if -position <= length then length + position else 0
  }

  function Splice(skeleton: seq<Byte>, position: int, inserted: seq<Byte>): seq<Byte> {
    var c := Cut(|skeleton|, position);
    skeleton[..c] + inserted + skeleton[c..]
  }

  function FragmentBytes(raw: seq<Byte>, skel: Skeleton, frag: Fragment): seq<Byte> {
    var offset := skel.length + frag.offset;
    raw[Min(offset, |raw|)..Min(offset + frag.length, |raw|)]
  }

  function Assembled(skeleton: seq<Byte>, raw: seq<Byte>, skel: Skeleton, frags: seq<Fragment>): seq<Byte>
    decreases |frags|
  {
    if frags == [] then skeleton else
    var frag := frags[0];
    Assembled(Splice(skeleton, frag.insertOffset - skel.offset, FragmentBytes(raw, skel, frag)), raw, skel, frags[1..])
  }

  // ----- The selectors of links into fragments

  /** What is searched for from a place on: the selector of the next attribute that names an element, if there is one. */
  type Selecting = seq<Byte> -> Option<string>

  /** The selectors by fragment and offset. */
  type Saved = map<(nat, nat), Option<string>>

  class Selectors {
    var saved: Saved

    constructor ()
      ensures saved == map[]
    {
      saved := map[];
    }

    method Set(id: nat, offset: nat, selector: Option<string>)
      modifies this
      ensures saved == old(saved)[(id, offset) := selector]
    {
      saved := saved[(id, offset) := selector];
    }
  }

  /** The places that the table of contents links to. */
  function OffsetsOf(offsets: map<nat, seq<nat>>, id: nat): seq<nat> {
    if id in offsets then offsets[id] else []
  }

  function BytesFrom(bytes: seq<Byte>, offset: nat): seq<Byte> {
    bytes[Min(offset, |bytes|)..]
  }

  function Recorded(saved: Saved, id: nat, offsets: seq<nat>, bytes: seq<Byte>, select: Selecting): Saved
    decreases |offsets|
  {
    if offsets == [] then saved
    else Recorded(saved[(id, offsets[0]) := select(BytesFrom(bytes, offsets[0]))], id, offsets[1..], bytes, select)
  }

  function AllRecorded(saved: Saved, raw: seq<Byte>, skel: Skeleton, frags: seq<Fragment>, offsets: map<nat, seq<nat>>, select: Selecting): Saved
    decreases |frags|
  {
    if frags == [] then saved else
    var now := Recorded(saved, frags[0].index, OffsetsOf(offsets, frags[0].index), FragmentBytes(raw, skel, frags[0]), select);
    AllRecorded(now, raw, skel, frags[1..], offsets, select)
  }

  method LoadText(raw: seq<Byte>, skel: Skeleton, frags: seq<Fragment>,
                  offsets: map<nat, seq<nat>>, select: Selecting, selectors: Selectors) returns (skeleton: seq<Byte>)
    modifies selectors
    ensures skeleton == Assembled(raw[..Min(skel.length, |raw|)], raw, skel, frags)
    ensures selectors.saved == AllRecorded(old(selectors.saved), raw, skel, frags, offsets, select)
  {
    hide FragmentBytes, Recorded;
    skeleton := raw[..Min(skel.length, |raw|)];
    for i := 0 to |frags|
      invariant Assembled(skeleton, raw, skel, frags[i..]) == Assembled(raw[..Min(skel.length, |raw|)], raw, skel, frags)
      invariant AllRecorded(selectors.saved, raw, skel, frags[i..], offsets, select)
                == AllRecorded(old(selectors.saved), raw, skel, frags, offsets, select)
    {
      var frag := frags[i];
      assert frags[i..][1..] == frags[i + 1..];
      var insertOffset := frag.insertOffset - skel.offset;
      var fragRaw := FragmentBytes(raw, skel, frag);
      var c := Cut(|skeleton|, insertOffset);
      skeleton := skeleton[..c] + fragRaw + skeleton[c..];
      SetSelectors(frag.index, OffsetsOf(offsets, frag.index), fragRaw, select, selectors);
    }
  }

  method SetSelectors(id: nat, offsets: seq<nat>, fragRaw: seq<Byte>, select: Selecting, selectors: Selectors)
    modifies selectors
    ensures selectors.saved == Recorded(old(selectors.saved), id, offsets, fragRaw, select)
  {
    for j := 0 to |offsets|
      invariant Recorded(selectors.saved, id, offsets[j..], fragRaw, select) == Recorded(old(selectors.saved), id, offsets, fragRaw, select)
    {
      assert offsets[j..][1..] == offsets[j + 1..];
      selectors.Set(id, offsets[j], select(BytesFrom(fragRaw, offsets[j])));
    }
  }

  lemma {:induction false} RecordedIs(saved: Saved, id: nat, offsets: seq<nat>, bytes: seq<Byte>, select: Selecting, key: (nat, nat))
    ensures var all := Recorded(saved, id, offsets, bytes, select);
            if key.0 == id && key.1 in offsets then key in all && all[key] == select(BytesFrom(bytes, key.1))
            else (key in all <==> key in saved) && (key in saved ==> all[key] == saved[key])
    decreases |offsets|
  {
    hide BytesFrom;
    if offsets != [] {
      RecordedIs(saved[(id, offsets[0]) := select(BytesFrom(bytes, offsets[0]))], id, offsets[1..], bytes, select, key);
    }
  }

  predicate Distinct(frags: seq<Fragment>) {
    forall i, j :: 0 <= i < j < |frags| ==> frags[i].index != frags[j].index
  }

  lemma {:induction false} OthersAreKept(saved: Saved, raw: seq<Byte>, skel: Skeleton, frags: seq<Fragment>,
                                         offsets: map<nat, seq<nat>>, select: Selecting, key: (nat, nat))
    requires key.1 in OffsetsOf(offsets, key.0) ==> forall i :: 0 <= i < |frags| ==> frags[i].index != key.0
    ensures var all := AllRecorded(saved, raw, skel, frags, offsets, select);
            (key in all <==> key in saved) && (key in saved ==> all[key] == saved[key])
    decreases |frags|
  {
    hide FragmentBytes, Recorded, OffsetsOf;
    if frags != [] {
      var f := frags[0];
      var bytes := FragmentBytes(raw, skel, f);
      RecordedIs(saved, f.index, OffsetsOf(offsets, f.index), bytes, select, key);
      OthersAreKept(Recorded(saved, f.index, OffsetsOf(offsets, f.index), bytes, select), raw, skel, frags[1..], offsets, select, key);
    }
  }

  /** The selector saved for a place is that of the raw bytes from there to the end of its own fragment, wherever the fragment
      is spliced in and whatever is spliced into it. */
  lemma {:induction false} SelectorIsSaved(saved: Saved, raw: seq<Byte>, skel: Skeleton, frags: seq<Fragment>,
                                           offsets: map<nat, seq<nat>>, select: Selecting, i: nat, offset: nat)
    requires Distinct(frags) && i < |frags| && offset in OffsetsOf(offsets, frags[i].index)
    requires offset <= frags[i].length && skel.length + frags[i].offset + frags[i].length <= |raw|
    ensures var all, key := AllRecorded(saved, raw, skel, frags, offsets, select), (frags[i].index, offset);
            var start := skel.length + frags[i].offset;
            key in all && all[key] == select(raw[start + offset..start + frags[i].length])
    decreases |frags|
  {
    hide FragmentBytes, Recorded, OffsetsOf, AllRecorded;
    var f := frags[0];
    var now := Recorded(saved, f.index, OffsetsOf(offsets, f.index), FragmentBytes(raw, skel, f), select);
    NextRecorded(saved, raw, skel, frags, offsets, select);
    if i == 0 {
      var key := (f.index, offset);
      RecordedIs(saved, f.index, OffsetsOf(offsets, f.index), FragmentBytes(raw, skel, f), select, key);
      OthersAreKept(now, raw, skel, frags[1..], offsets, select, key);
      FragmentIsRun(raw, skel, f);
      var start := skel.length + f.offset;
      SliceOfSlice(raw, start, start + f.length, start + offset, start + f.length);
    } else {
      SelectorIsSaved(now, raw, skel, frags[1..], offsets, select, i - 1, offset);
    }
  }

  lemma NextRecorded(saved: Saved, raw: seq<Byte>, skel: Skeleton, frags: seq<Fragment>, offsets: map<nat, seq<nat>>, select: Selecting)
    requires frags != []
    ensures AllRecorded(saved, raw, skel, frags, offsets, select) ==
            var f := frags[0];
            AllRecorded(Recorded(saved, f.index, OffsetsOf(offsets, f.index), FragmentBytes(raw, skel, f), select), raw, skel, frags[1..], offsets, select)
  {
  }

  // ----- What assembling keeps

  /** The fragments lie one after the other behind the skeleton. */
  predicate TileFrom(frags: seq<Fragment>, offset: nat)
    decreases |frags|
  {
    frags == [] || (frags[0].offset == offset && TileFrom(frags[1..], offset + frags[0].length))
  }

  lemma SpliceConserves(skeleton: seq<Byte>, position: int, inserted: seq<Byte>)
    ensures |Splice(skeleton, position, inserted)| == |skeleton| + |inserted|
    ensures multiset(Splice(skeleton, position, inserted)) == multiset(skeleton) + multiset(inserted)
  {
    var c := Cut(|skeleton|, position);
    assert skeleton == skeleton[..c] + skeleton[c..];
  }

  lemma FragmentIsRun(raw: seq<Byte>, skel: Skeleton, frag: Fragment)
    requires skel.length + frag.offset + frag.length <= |raw|
    ensures var start := skel.length + frag.offset;
            && FragmentBytes(raw, skel, frag) == raw[start..start + frag.length]
            && raw[start..] == FragmentBytes(raw, skel, frag) + raw[start + frag.length..]
  {
  }

  lemma {:induction false} AssembledConserves(skeleton: seq<Byte>, raw: seq<Byte>, skel: Skeleton, frags: seq<Fragment>, offset: nat)
    requires TileFrom(frags, offset) && skel.length + offset + TotalLength(frags) == |raw|
    ensures |Assembled(skeleton, raw, skel, frags)| == |skeleton| + TotalLength(frags)
    ensures multiset(Assembled(skeleton, raw, skel, frags)) == multiset(skeleton) + multiset(raw[skel.length + offset..])
    decreases |frags|
  {
    hide Splice, FragmentBytes;
    if frags == [] {
      assert raw[skel.length + offset..] == [];
    } else {
      var frag := frags[0];
      var bytes := FragmentBytes(raw, skel, frag);
      var next := Splice(skeleton, frag.insertOffset - skel.offset, bytes);
      SpliceConserves(skeleton, frag.insertOffset - skel.offset, bytes);
      FragmentIsRun(raw, skel, frag);
      AssembledConserves(next, raw, skel, frags[1..], offset + frag.length);
    }
  }

  /** The assembled section has the length and the bytes of the raw slice, wherever the fragments are inserted. */
  lemma AssemblyConservesBytes(raw: seq<Byte>, skel: Skeleton, frags: seq<Fragment>)
    requires TileFrom(frags, 0) && |raw| == skel.length + TotalLength(frags)
    ensures var text := Assembled(raw[..Min(skel.length, |raw|)], raw, skel, frags);
            |text| == |raw| && multiset(text) == multiset(raw)
  {
    AssembledConserves(raw[..skel.length], raw, skel, frags, 0);
    assert raw == raw[..skel.length] + raw[skel.length..];
  }

  /** Taking the fragments out again, the last one first. */
  function TakenApart(text: seq<Byte>, skel: Skeleton, frags: seq<Fragment>): seq<Byte>
    requires TotalLength(frags) <= |text|
    decreases |frags|
  {
    if frags == [] then text else
    var last := frags[|frags| - 1];
    LastLength(frags);
    var c := Cut(|text| - last.length, last.insertOffset - skel.offset);
    TakenApart(text[..c] + text[c + last.length..], skel, frags[..|frags| - 1]) + text[c..c + last.length]
  }

  lemma {:induction false} LastLength(frags: seq<Fragment>)
    requires frags != []
    ensures TotalLength(frags) == TotalLength(frags[..|frags| - 1]) + frags[|frags| - 1].length
    decreases |frags|
  {
    if |frags| > 1 {
      LastLength(frags[1..]);
      assert frags[1..][..|frags| - 2] == frags[..|frags| - 1][1..];
    } else {
      assert frags[1..] == [] && frags[..0] == [];
    }
  }

  lemma {:induction false} AssembledLast(skeleton: seq<Byte>, raw: seq<Byte>, skel: Skeleton, frags: seq<Fragment>)
    requires frags != []
    ensures var last := frags[|frags| - 1];
            Assembled(skeleton, raw, skel, frags) ==
            Splice(Assembled(skeleton, raw, skel, frags[..|frags| - 1]), last.insertOffset - skel.offset, FragmentBytes(raw, skel, last))
    decreases |frags|
  {
    hide Splice, FragmentBytes;
    var next := Splice(skeleton, frags[0].insertOffset - skel.offset, FragmentBytes(raw, skel, frags[0]));
    if |frags| > 1 {
      AssembledLast(next, raw, skel, frags[1..]);
      assert frags[1..][..|frags| - 2] == frags[..|frags| - 1][1..];
    } else {
      assert frags[1..] == [] && frags[..0] == [];
    }
  }

  lemma {:induction false} TileLast(frags: seq<Fragment>, offset: nat)
    requires frags != [] && TileFrom(frags, offset)
    ensures TileFrom(frags[..|frags| - 1], offset)
    ensures frags[|frags| - 1].offset == offset + TotalLength(frags[..|frags| - 1])
    decreases |frags|
  {
    if |frags| > 1 {
      TileLast(frags[1..], offset + frags[0].length);
      assert frags[1..][..|frags| - 2] == frags[..|frags| - 1][1..];
    } else {
      assert frags[..0] == [];
    }
  }

  lemma SpliceIsUndone(skeleton: seq<Byte>, position: int, inserted: seq<Byte>)
    ensures var text := Splice(skeleton, position, inserted);
            var c := Cut(|text| - |inserted|, position);
            text[..c] + text[c + |inserted|..] == skeleton && text[c..c + |inserted|] == inserted
  {
  }

  lemma LastTakenOut(before: seq<Byte>, skel: Skeleton, frags: seq<Fragment>, bytes: seq<Byte>)
    requires frags != [] && |bytes| == frags[|frags| - 1].length
    requires TotalLength(frags[..|frags| - 1]) <= |before|
    ensures TotalLength(frags) <= |before| + |bytes|
    ensures var text := Splice(before, frags[|frags| - 1].insertOffset - skel.offset, bytes);
            && |text| == |before| + |bytes|
            && TakenApart(text, skel, frags) == TakenApart(before, skel, frags[..|frags| - 1]) + bytes
  {
    hide Splice, Cut, TotalLength;
    var position := frags[|frags| - 1].insertOffset - skel.offset;
    LastLength(frags);
    SpliceConserves(before, position, bytes);
    SpliceIsUndone(before, position, bytes);
  }

  lemma LongerSlice(before: seq<Byte>, raw: seq<Byte>, a: nat, b: nat, c: nat)
    requires a <= b <= c <= |raw|
    ensures before + raw[a..c] == (before + raw[a..b]) + raw[b..c]
  {
    JoinedSlices(raw, a, b, c);
  }

  /** Assembly loses nothing: the raw slice can be read back from the assembled text. */
  lemma {:induction false} AssemblyIsUndone(skeleton: seq<Byte>, raw: seq<Byte>, skel: Skeleton, frags: seq<Fragment>)
    requires TileFrom(frags, 0) && skel.length + TotalLength(frags) <= |raw|
    ensures var text := Assembled(skeleton, raw, skel, frags);
            && |text| == |skeleton| + TotalLength(frags)
            && TakenApart(text, skel, frags) == skeleton + raw[skel.length..skel.length + TotalLength(frags)]
    decreases |frags|
  {
    hide Assembled, Splice, Cut, TakenApart, TotalLength, TileFrom;
    if frags == [] {
      NothingToAssemble(skeleton, raw, skel);
    } else {
      var most, last := frags[..|frags| - 1], frags[|frags| - 1];
      TileLast(frags, 0);
      LastLength(frags);
      var end := skel.length + TotalLength(most);
      var bytes := raw[end..end + last.length];
      assert FragmentBytes(raw, skel, last) == bytes;
      AssembledLast(skeleton, raw, skel, frags);
      AssemblyIsUndone(skeleton, raw, skel, most);
      LastTakenOut(Assembled(skeleton, raw, skel, most), skel, frags, bytes);
      LongerSlice(skeleton, raw, skel.length, end, end + last.length);
    }
  }

  lemma NothingToAssemble(skeleton: seq<Byte>, raw: seq<Byte>, skel: Skeleton)
    ensures Assembled(skeleton, raw, skel, []) == skeleton
    ensures TotalLength([]) == 0 && TakenApart(skeleton, skel, []) == skeleton
  {
  }

  // ----- Where every byte ends up

  /** A fragment goes in at its offset from the start of the skeleton. Past the end of what there is so far it goes to the
      end; an offset below the start counts back from the end, and goes no further than the start. */
  lemma SpliceIs(skeleton: seq<Byte>, position: int, inserted: seq<Byte>)
    ensures 0 <= position <= |skeleton| ==>
              Splice(skeleton, position, inserted) == skeleton[..position] + inserted + skeleton[position..]
    ensures position > |skeleton| ==> Splice(skeleton, position, inserted) == skeleton + inserted
    ensures -|skeleton| <= position < 0 ==>
              Splice(skeleton, position, inserted) == skeleton[..|skeleton| + position] + inserted + skeleton[|skeleton| + position..]
    ensures position < -|skeleton| ==> Splice(skeleton, position, inserted) == inserted + skeleton
  {
  }

  /** Every fragment goes in somewhere in the text that there is by then. */
  predicate InRange(length: nat, skel: Skeleton, frags: seq<Fragment>)
    decreases |frags|
  {
    frags == [] || (0 <= frags[0].insertOffset - skel.offset <= length && InRange(length + frags[0].length, skel, frags[1..]))
  }

  /** Where a byte at a place is after more fragments go in: each one before it moves it on. */
  function Moved(place: nat, skel: Skeleton, frags: seq<Fragment>): nat
    decreases |frags|
  {
    if frags == [] then place else
    Moved(if place < frags[0].insertOffset - skel.offset then place else place + frags[0].length, skel, frags[1..])
  }

  lemma SplicedPlaces(skeleton: seq<Byte>, position: nat, inserted: seq<Byte>)
    requires position <= |skeleton|
    ensures var next := Splice(skeleton, position, inserted);
            && |next| == |skeleton| + |inserted|
            && (forall p :: 0 <= p < |skeleton| ==> next[if p < position then p else p + |inserted|] == skeleton[p])
            && next[position..position + |inserted|] == inserted
  {
    SpliceIs(skeleton, position, inserted);
  }

  /** The fragments have their bytes behind the skeleton in the raw slice. */
  predicate InRaw(raw: seq<Byte>, skel: Skeleton, frags: seq<Fragment>) {
    forall i :: 0 <= i < |frags| ==> skel.length + frags[i].offset + frags[i].length <= |raw|
  }

  /** The text once the first fragment is in. */
  function Begun(skeleton: seq<Byte>, raw: seq<Byte>, skel: Skeleton, frags: seq<Fragment>): seq<Byte>
    requires frags != []
  {
    Splice(skeleton, frags[0].insertOffset - skel.offset, FragmentBytes(raw, skel, frags[0]))
  }

  lemma BegunPlaces(skeleton: seq<Byte>, raw: seq<Byte>, skel: Skeleton, frags: seq<Fragment>)
    requires frags != [] && InRange(|skeleton|, skel, frags) && InRaw(raw, skel, frags)
    ensures var next, f := Begun(skeleton, raw, skel, frags), frags[0];
            var position := f.insertOffset - skel.offset;
            && |next| == |skeleton| + f.length && InRange(|next|, skel, frags[1..]) && InRaw(raw, skel, frags[1..])
            && Assembled(skeleton, raw, skel, frags) == Assembled(next, raw, skel, frags[1..])
            && 0 <= position <= |skeleton|
            && (forall p :: 0 <= p < |skeleton| ==> next[if p < position then p else p + f.length] == skeleton[p])
            && next[position..position + f.length] == raw[skel.length + f.offset..skel.length + f.offset + f.length]
  {
    hide Splice, FragmentBytes;
    FragmentIsRun(raw, skel, frags[0]);
    SplicedPlaces(skeleton, frags[0].insertOffset - skel.offset, FragmentBytes(raw, skel, frags[0]));
  }

  /** The section is assembled further from there. */
  lemma BegunGoesOn(skeleton: seq<Byte>, raw: seq<Byte>, skel: Skeleton, frags: seq<Fragment>)
    requires frags != [] && InRange(|skeleton|, skel, frags) && InRaw(raw, skel, frags)
    ensures var next := Begun(skeleton, raw, skel, frags);
            && |next| == |skeleton| + frags[0].length && InRange(|next|, skel, frags[1..]) && InRaw(raw, skel, frags[1..])
            && Assembled(skeleton, raw, skel, frags) == Assembled(next, raw, skel, frags[1..])
  {
    hide *;
    BegunPlaces(skeleton, raw, skel, frags);
  }

  lemma {:induction false} ByteMoves(skeleton: seq<Byte>, raw: seq<Byte>, skel: Skeleton, frags: seq<Fragment>, p: nat)
    requires InRange(|skeleton|, skel, frags) && InRaw(raw, skel, frags) && p < |skeleton|
    ensures var text := Assembled(skeleton, raw, skel, frags);
            Moved(p, skel, frags) < |text| && text[Moved(p, skel, frags)] == skeleton[p]
    decreases |frags|
  {
    hide Begun, InRange, InRaw;
    if frags != [] {
      BegunPlaces(skeleton, raw, skel, frags);
      var position := frags[0].insertOffset - skel.offset;
      ByteMoves(Begun(skeleton, raw, skel, frags), raw, skel, frags[1..], if p < position then p else p + frags[0].length);
    }
  }

  lemma FirstInPlace(skeleton: seq<Byte>, raw: seq<Byte>, skel: Skeleton, frags: seq<Fragment>, m: nat)
    requires frags != [] && InRange(|skeleton|, skel, frags) && InRaw(raw, skel, frags) && m < frags[0].length
    ensures var next, at := Begun(skeleton, raw, skel, frags), frags[0].insertOffset - skel.offset + m;
            0 <= at < |next| && next[at] == raw[skel.length + frags[0].offset + m]
  {
    hide Begun, Assembled;
    BegunPlaces(skeleton, raw, skel, frags);
    var next, position, length := Begun(skeleton, raw, skel, frags), frags[0].insertOffset - skel.offset, frags[0].length;
    var start := skel.length + frags[0].offset;
    assert next[position..position + length][m] == raw[start..start + length][m];
  }

  /** In the assembled section each byte of a fragment is at the place it went in at, moved on by the fragments that go in
      before it later; and so is each byte of the skeleton. */
  lemma {:induction false} FragmentMoves(skeleton: seq<Byte>, raw: seq<Byte>, skel: Skeleton, frags: seq<Fragment>, i: nat, m: nat)
    requires InRange(|skeleton|, skel, frags) && InRaw(raw, skel, frags) && i < |frags| && m < frags[i].length
    ensures var text, at := Assembled(skeleton, raw, skel, frags), frags[i].insertOffset - skel.offset + m;
            && at >= 0 && Moved(at, skel, frags[i + 1..]) < |text|
            && text[Moved(at, skel, frags[i + 1..])] == raw[skel.length + frags[i].offset + m]
    decreases |frags|
  {
    hide Begun, InRange, InRaw, Moved, Assembled;
    BegunGoesOn(skeleton, raw, skel, frags);
    var next := Begun(skeleton, raw, skel, frags);
    if i == 0 {
      FirstInPlace(skeleton, raw, skel, frags, m);
      ByteMoves(next, raw, skel, frags[1..], frags[0].insertOffset - skel.offset + m);
    } else {
      FragmentMoves(next, raw, skel, frags[1..], i - 1, m);
      assert frags[1..][i..] == frags[i + 1..];
    }
  }

  /** Where a byte of the section is from: place `m` of fragment `i`, or of the skeleton when there is no such fragment. */
  predicate IsFrom(length: nat, skel: Skeleton, frags: seq<Fragment>, x: nat, i: int, m: nat) {
    if i < 0 || i >= |frags| then m < length && Moved(m, skel, frags) == x
    else
      && m < frags[i].length && frags[i].insertOffset - skel.offset >= 0
      && Moved(frags[i].insertOffset - skel.offset + m, skel, frags[i + 1..]) == x
  }

  /** There is nothing else in the section. */
  lemma {:induction false} EveryByteIsFromSomewhere(skeleton: seq<Byte>, raw: seq<Byte>, skel: Skeleton, frags: seq<Fragment>, x: nat)
    returns (i: int, m: nat)
    requires InRange(|skeleton|, skel, frags) && InRaw(raw, skel, frags) && x < |Assembled(skeleton, raw, skel, frags)|
    ensures IsFrom(|skeleton|, skel, frags, x, i, m)
    decreases |frags|
  {
    hide Begun, InRange, InRaw;
    if frags == [] {
      i, m := -1, x;
    } else {
      BegunPlaces(skeleton, raw, skel, frags);
      var j, n := EveryByteIsFromSomewhere(Begun(skeleton, raw, skel, frags), raw, skel, frags[1..], x);
      var position, length := frags[0].insertOffset - skel.offset, frags[0].length;
      if 0 <= j < |frags| - 1 {
        assert frags[1..][j + 1..] == frags[j + 2..];
        i, m := j + 1, n;
      } else if n < position {
        i, m := -1, n;
      } else if n < position + length {
        i, m := 0, n - position;
      } else {
        i, m := -1, n - length;
      }
    }
  }

  lemma {:induction false} StaysPut(place: nat, skel: Skeleton, frags: seq<Fragment>)
    requires forall j :: 0 <= j < |frags| ==> place < frags[j].insertOffset - skel.offset
    ensures Moved(place, skel, frags) == place
    decreases |frags|
  {
    if frags != [] {
      StaysPut(place, skel, frags[1..]);
    }
  }

  /** When all later fragments go in behind it, a fragment stands in the section at its own insert offset. */
  lemma FragmentStands(skeleton: seq<Byte>, raw: seq<Byte>, skel: Skeleton, frags: seq<Fragment>, i: nat)
    requires InRange(|skeleton|, skel, frags) && InRaw(raw, skel, frags) && i < |frags| && frags[i].length > 0
    requires forall j :: i < j < |frags| ==> frags[i].insertOffset + frags[i].length <= frags[j].insertOffset
    ensures var text, position, start := Assembled(skeleton, raw, skel, frags), frags[i].insertOffset - skel.offset, skel.length + frags[i].offset;
            0 <= position && position + frags[i].length <= |text|
            && text[position..position + frags[i].length] == raw[start..start + frags[i].length]
  {
    hide Assembled, InRange, Moved;
    var text, position, length := Assembled(skeleton, raw, skel, frags), frags[i].insertOffset - skel.offset, frags[i].length;
    var start := skel.length + frags[i].offset;
    FragmentStaysPut(skeleton, raw, skel, frags, i, length - 1);
    var stands, bytes := text[position..position + length], raw[start..start + length];
    forall m | 0 <= m < length
      ensures stands[m] == bytes[m]
    {
      FragmentStaysPut(skeleton, raw, skel, frags, i, m);
    }
  }

  lemma FragmentStaysPut(skeleton: seq<Byte>, raw: seq<Byte>, skel: Skeleton, frags: seq<Fragment>, i: nat, m: nat)
    requires InRange(|skeleton|, skel, frags) && InRaw(raw, skel, frags) && i < |frags| && m < frags[i].length
    requires forall j :: i < j < |frags| ==> frags[i].insertOffset + frags[i].length <= frags[j].insertOffset
    ensures var text, position := Assembled(skeleton, raw, skel, frags), frags[i].insertOffset - skel.offset;
            0 <= position && position + m < |text| && text[position + m] == raw[skel.length + frags[i].offset + m]
  {
    hide Assembled, InRange, Moved;
    FragmentMoves(skeleton, raw, skel, frags, i, m);
    InsertedInRange(|skeleton|, skel, frags, i);
    StaysPut(frags[i].insertOffset - skel.offset + m, skel, frags[i + 1..]);
  }

  lemma {:induction false} InsertedInRange(length: nat, skel: Skeleton, frags: seq<Fragment>, i: nat)
    requires InRange(length, skel, frags) && i < |frags|
    ensures frags[i].insertOffset - skel.offset >= 0
    decreases |frags|
  {
    if i > 0 {
      InsertedInRange(length + frags[0].length, skel, frags[1..], i - 1);
    }
  }
}
