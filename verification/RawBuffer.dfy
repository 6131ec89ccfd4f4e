/** The two-ended text buffer of the KF8 reader: text records are decoded from the front or from the back, whichever
    reaches the requested range first, and what is returned is always the slice of the whole text. */
module RawBuffer {
  import opened Wrappers
  import opened Bytes

  class Reader {
    /** The decoded text records, in order. */
    const records: seq<seq<Byte>>
    /** The end of the last flow; not set when the book has no flow table. */
    const fullRawLength: Option<nat>
    var rawHead: seq<Byte>
    var rawTail: seq<Byte>
    var lastLoadedHead: int
    var lastLoadedTail: int

    ghost function Full(): seq<Byte> {
      Concat(records)
    }

    /** The head holds the first records, the tail the last ones; the flow table agrees with the text. */
    ghost predicate Valid()
      reads this
    {
      && (fullRawLength.Some? ==> fullRawLength.value == |Full()|)
      && -1 <= lastLoadedHead < |records|
      && -1 <= lastLoadedTail < |records|
      && rawHead == Concat(records[..lastLoadedHead + 1])
      && rawTail == Concat(records[|records| - 1 - lastLoadedTail..])
    }

    constructor (records: seq<seq<Byte>>, fullRawLength: Option<nat>)
      requires fullRawLength.Some? ==> fullRawLength.value == |Concat(records)|
      ensures Valid() && this.records == records && this.fullRawLength == fullRawLength
      ensures rawHead == [] && rawTail == []
    {
      this.records := records;
      this.fullRawLength := fullRawLength;
      rawHead, rawTail := [], [];
      lastLoadedHead, lastLoadedTail := -1, -1;
      new;
      assert records[..0] == [] && records[|records|..] == [];
    }

    /** Requests one record; asking for one that is not there would fail. */
    method LoadText(index: int) returns (data: seq<Byte>)
      requires 0 <= index < |records|
      ensures data == records[index]
    {
      data := records[index];
    }

    /** Both ends stay what they are of the whole text. */
    lemma HeadAndTail()
      requires Valid()
      ensures rawHead <= Full()
      ensures |rawTail| <= |Full()| && rawTail == Full()[|Full()| - |rawTail|..]
      ensures lastLoadedHead == |records| - 1 ==> rawHead == Full()
      ensures lastLoadedTail == |records| - 1 ==> rawTail == Full()
    {
      ConcatSplit(records, lastLoadedHead + 1);
      ConcatSplit(records, |records| - 1 - lastLoadedTail);
      assert records[..|records|] == records && records[0..] == records;
    }

    /** The loop from the start. */
    method LoadHead(end: nat)
      requires Valid() && end <= |Full()|
      modifies this`rawHead, this`lastLoadedHead
      ensures Valid() && old(rawHead) <= rawHead && |rawHead| >= end
    {
      hide Concat;
      HeadAndTail();
      while |rawHead| < end
        invariant Valid() && old(rawHead) <= rawHead
        decreases |records| - lastLoadedHead
      {
        HeadAndTail();
        lastLoadedHead := lastLoadedHead + 1;
        var data := LoadText(lastLoadedHead);
        ConcatNext(records, lastLoadedHead);
        rawHead := rawHead + data;
      }
    }

    /** The loop from the end. */
    method LoadTail(start: nat)
      requires Valid() && fullRawLength.Some? && start <= |Full()|
      modifies this`rawTail, this`lastLoadedTail
      ensures Valid() && |old(rawTail)| <= |rawTail| && fullRawLength.value - |rawTail| <= start
    {
      hide Concat;
      HeadAndTail();
      while fullRawLength.value - |rawTail| > start
        invariant Valid() && |old(rawTail)| <= |rawTail|
        decreases |records| - lastLoadedTail
      {
        HeadAndTail();
        lastLoadedTail := lastLoadedTail + 1;
        var index := |records| - 1 - lastLoadedTail;
        var data := LoadText(index);
        ConcatNext(records, index);
        rawTail := data + rawTail;
      }
    }

    method LoadRaw(start: nat, end: nat) returns (raw: seq<Byte>)
      requires Valid() && start <= end <= |Full()|
      modifies this
      ensures Valid()
      ensures raw == Full()[start..end]
      ensures old(rawHead) <= rawHead && |old(rawTail)| <= |rawTail|
      ensures rawHead == old(rawHead) || rawTail == old(rawTail)
    {
      hide Concat;
      var distanceHead := end - |rawHead|;
      if fullRawLength == None || distanceHead < 0 || distanceHead < fullRawLength.value - |rawTail| - start {
        LoadHead(end);
        HeadAndTail();
        return rawHead[start..end];
      }
      LoadTail(start);
      HeadAndTail();
      var rawTailStart := fullRawLength.value - |rawTail|;
      raw := rawTail[start - rawTailStart..end - rawTailStart];
      SliceOfSlice(Full(), rawTailStart, |Full()|, start, end);
      assert Full()[rawTailStart..|Full()|] == Full()[rawTailStart..];
    }

    /** A whole run of requests, one at a time. */
    method LoadAll(requests: seq<(nat, nat)>) returns (raws: seq<seq<Byte>>)
      requires Valid() && forall k :: 0 <= k < |requests| ==> requests[k].0 <= requests[k].1 <= |Full()|
      modifies this
      ensures Valid()
      ensures |raws| == |requests|
      ensures forall k :: 0 <= k < |requests| ==> raws[k] == Full()[requests[k].0..requests[k].1]
    {
      raws := [];
      for k := 0 to |requests|
        invariant Valid() && |raws| == k
        invariant forall j :: 0 <= j < k ==> raws[j] == Full()[requests[j].0..requests[j].1]
      {
        var raw := LoadRaw(requests[k].0, requests[k].1);
        raws := raws + [raw];
      }
    }
  }
}
