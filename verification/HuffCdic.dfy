/** The HUFF/CDIC decompressor: dictionary entries that are themselves compressed are expanded on first use, and the
    expansion is written back into the dictionary while the outer text is still being decoded. */
module HuffCdic {
  import opened Wrappers
  import opened Bytes

  // ----- Bit windows

  /** A number shifted right by `k` bits. */
  function Shr(v: nat, k: nat): nat {
    if k == 0 then v else Shr(v / 2, k - 1)
  }

  /** The low `n` bits of a number. */
  function Low(v: nat, n: nat): nat {
    if n == 0 then 0 else 2 * Low(v / 2, n - 1) + v % 2
  }

  /** Bit `k`, the most significant bit of each byte first; zero past the end. */
  function BitAt(s: seq<Byte>, k: nat): (bit: nat)
    ensures bit < 2
  {
    Shr(ByteOrZero(s, k / 8), 7 - k % 8) % 2
  }

  /** The `n` bits from bit `from` on, read as a big-endian number. */
  function Window(s: seq<Byte>, from: nat, n: nat): nat {
    if n == 0 then 0 else 2 * Window(s, from, n - 1) + BitAt(s, from + n - 1)
  }

  predicate Fits(v: nat, n: nat) {
    Shr(v, n) == 0
  }

  lemma {:induction false} WindowFits(s: seq<Byte>, from: nat, n: nat)
    ensures Fits(Window(s, from, n), n)
  {
    if n > 0 {
      WindowFits(s, from, n - 1);
    }
  }

  lemma {:induction false} ShrHalf(v: nat, k: nat)
    ensures Shr(v, k + 1) == Shr(v, k) / 2
  {
    if k > 0 {
      ShrHalf(v / 2, k - 1);
    }
  }

  /** Shifting a window right drops its last bits. */
  lemma {:induction false} ShrWindow(s: seq<Byte>, from: nat, n: nat, after: nat)
    ensures Shr(Window(s, from, n + after), after) == Window(s, from, n)
  {
    if after > 0 {
      ShrWindow(s, from, n, after - 1);
    }
  }

  /** Masking a window drops its first bits. */
  lemma {:induction false} LowWindow(s: seq<Byte>, from: nat, before: nat, n: nat)
    ensures Low(Window(s, from, before + n), n) == Window(s, from + before, n)
  {
    hide BitAt;
    if n > 0 {
      LowWindow(s, from, before, n - 1);
    }
  }

  lemma {:induction false} PartOfByte(s: seq<Byte>, j: nat, m: nat)
    requires m <= 8
    ensures Window(s, 8 * j, m) == Shr(ByteOrZero(s, j), 8 - m)
  {
    if m == 0 {
      ByteFits(ByteOrZero(s, j));
    } else {
      PartOfByte(s, j, m - 1);
      var k := 8 * j + m - 1;
      assert k / 8 == j && k % 8 == m - 1;
      ShrHalf(ByteOrZero(s, j), 8 - m);
    }
  }

  lemma ByteFits(b: Byte)
    ensures Shr(b, 8) == 0
  {
    ScaleByte(1);
    SmallIsShiftedOut(b, 8);
  }

  lemma {:induction false} SmallIsShiftedOut(v: nat, n: nat)
    requires v < Scale(1, n)
    ensures Shr(v, n) == 0
    decreases n
  {
    if n > 0 {
      SmallIsShiftedOut(v / 2, n - 1);
    }
  }

  /** Eight more bits are one more byte. */
  lemma NextByte(s: seq<Byte>, start: nat, j: nat)
    ensures Window(s, 8 * start, 8 * j + 8) == 256 * Window(s, 8 * start, 8 * j) + ByteOrZero(s, start + j)
  {
    PartOfByte(s, start + j, 8);
    WindowSplit(s, 8 * start, 8 * j, 8);
    ScaleByte(Window(s, 8 * start, 8 * j));
    assert Shr(ByteOrZero(s, start + j), 0) == ByteOrZero(s, start + j);
  }

  function Scale(v: nat, n: nat): nat {
    if n == 0 then v else 2 * Scale(v, n - 1)
  }

  lemma ScaleByte(v: nat)
    ensures Scale(v, 8) == 256 * v
  {
    assert Scale(v, 8) == 2 * Scale(v, 7) == 4 * Scale(v, 6) == 8 * Scale(v, 5) == 16 * Scale(v, 4);
    assert Scale(v, 4) == 2 * Scale(v, 3) == 4 * Scale(v, 2) == 8 * Scale(v, 1) == 16 * Scale(v, 0);
  }

  lemma {:induction false} WindowSplit(s: seq<Byte>, from: nat, a: nat, b: nat)
    ensures Window(s, from, a + b) == Scale(Window(s, from, a), b) + Window(s, from + a, b)
  {
    if b > 0 {
      WindowSplit(s, from, a, b - 1);
    }
  }

  /** Whatever the bit offset, the 32-bit big-endian window. */
  method Read32Bits(byteArray: seq<Byte>, from: nat) returns (r: nat)
    ensures r == Window(byteArray, from, 32)
  {
    var startByte := from / 8;
    var end := from + 32;
    var endByte := end / 8;
    var bits := 0;
    for i := startByte to endByte + 1
      invariant bits == Window(byteArray, 8 * startByte, 8 * (i - startByte))
    {
      NextByte(byteArray, startByte, i - startByte);
      bits := bits * 256 + ByteOrZero(byteArray, i);
    }
    r := Low(Shr(bits, 8 - end % 8), 32);
    WindowOfBytes(byteArray, from, from % 8);
  }

  lemma WindowOfBytes(byteArray: seq<Byte>, from: nat, before: nat)
    requires before == from % 8
    ensures var start, end := from / 8, from + 32;
            Low(Shr(Window(byteArray, 8 * start, 8 * (end / 8 + 1 - start)), 8 - end % 8), 32) == Window(byteArray, from, 32)
  {
    hide Window, Low, Shr;
    var start, end := from / 8, from + 32;
    assert 8 * (end / 8 + 1 - start) == before + 32 + (8 - end % 8);
    ShrWindow(byteArray, 8 * start, before + 32, 8 - end % 8);
    LowWindow(byteArray, 8 * start, before, 32);
  }

  // ----- Codes

  datatype ByteEntry = ByteEntry(found: bool, codeLength: nat, value: nat)
  datatype LengthEntry = LengthEntry(min: nat, max: nat)

  /** `table1` is indexed by the first byte of the window, `table2` by code length; its entry 0 is never used. */
  datatype Tables = Tables(table1: seq<ByteEntry>, table2: seq<LengthEntry>)

  datatype Code = Code(length: nat, value: nat)

  function Leading(bits: nat, length: nat): nat
    requires length <= 32
  {
    Shr(bits, 32 - length)
  }

  /** The first code length, from `length` on, whose least code is not above the window. */
  function SearchLength(t: Tables, bits: nat, length: nat): (found: Option<nat>)
    ensures found.Some? ==> length <= found.value <= 32 && found.value < |t.table2|
    decreases 33 - length
  {
    if length == 0 || length > 32 || length >= |t.table2| then None
    else if Leading(bits, length) < t.table2[length].min then SearchLength(t, bits, length + 1)
    else Some(length)
  }

  function Lookup(t: Tables, bits: nat): Option<Code> {
    if Shr(bits, 24) >= |t.table1| then None else
    var e := t.table1[Shr(bits, 24)];
    if e.found then Some(Code(e.codeLength, e.value))
    else match SearchLength(t, bits, e.codeLength)
      case None => None
      case Some(length) => Some(Code(length, t.table2[length].max))
  }

  /** The tables give every window a code of the dictionary, at least one bit long. */
  ghost predicate WellFormed(t: Tables, size: nat) {
    forall bits: nat :: Fits(bits, 32) ==> GoodCode(t, bits, size)
  }

  predicate GoodCode(t: Tables, bits: nat, size: nat) {
    && Lookup(t, bits).Some?
    && var c := Lookup(t, bits).value;
       1 <= c.length <= 32 && 0 <= c.value - Leading(bits, c.length) < size
  }

  /** The codes of a text from bit `i` on; an incomplete last code is dropped. */
  ghost function Codes(t: Tables, text: seq<Byte>, i: nat, size: nat): (codes: seq<nat>)
    requires WellFormed(t, size)
    ensures forall k :: 0 <= k < |codes| ==> codes[k] < size
    decreases 8 * |text| - i
  {
    if i >= 8 * |text| then [] else
    var bits := Window(text, i, 32);
    WindowFits(text, i, 32);
    assert GoodCode(t, bits, size);
    var c := Lookup(t, bits).value;
    if i + c.length > 8 * |text| then []
    else [c.value - Leading(bits, c.length)] + Codes(t, text, i + c.length, size)
  }

  // ----- The dictionary

  datatype Entry = Entry(value: seq<Byte>, decompressed: bool)

  /** The codes are of entries that are plain, or rank below `r`. */
  ghost predicate Below(dictionary: seq<Entry>, rank: seq<nat>, codes: seq<nat>, r: nat)
    requires |rank| == |dictionary|
  {
    forall k :: 0 <= k < |codes| ==>
      codes[k] < |dictionary| && (dictionary[codes[k]].decompressed || rank[codes[k]] < r)
  }

  /** Compressed entries refer only to entries that are plain or of lower rank. */
  ghost predicate Ranked(t: Tables, dictionary: seq<Entry>, rank: seq<nat>) {
    && WellFormed(t, |dictionary|)
    && |rank| == |dictionary|
    && forall c :: 0 <= c < |dictionary| ==> RankedEntry(t, dictionary, rank, c)
  }

  ghost predicate RankedEntry(t: Tables, dictionary: seq<Entry>, rank: seq<nat>, c: nat)
    requires WellFormed(t, |dictionary|) && |rank| == |dictionary| && c < |dictionary|
  {
    dictionary[c].decompressed || Below(dictionary, rank, Codes(t, dictionary[c].value, 0, |dictionary|), rank[c])
  }

  /** The cache-free recursion: one entry, and a list of codes. */
  ghost function Expand(t: Tables, dictionary: seq<Entry>, rank: seq<nat>, c: nat): seq<Byte>
    requires Ranked(t, dictionary, rank) && c < |dictionary|
    decreases if dictionary[c].decompressed then 0 else rank[c] + 1, 0
  {
    if dictionary[c].decompressed then dictionary[c].value else
    assert RankedEntry(t, dictionary, rank, c);
    ExpandAll(t, dictionary, rank, Codes(t, dictionary[c].value, 0, |dictionary|), rank[c])
  }

  ghost function ExpandAll(t: Tables, dictionary: seq<Entry>, rank: seq<nat>, codes: seq<nat>, r: nat): seq<Byte>
    requires Ranked(t, dictionary, rank) && Below(dictionary, rank, codes, r)
    decreases r, 1, |codes|
  {
    if codes == [] then [] else
    Expand(t, dictionary, rank, codes[0]) + ExpandAll(t, dictionary, rank, codes[1..], r)
  }

  /** Some entries replaced by their full expansions. */
  ghost predicate Memoized(t: Tables, original: seq<Entry>, rank: seq<nat>, dictionary: seq<Entry>)
    requires Ranked(t, original, rank)
  {
    && |dictionary| == |original|
    && forall c :: 0 <= c < |original| ==>
         dictionary[c] == original[c] || dictionary[c] == Entry(Expand(t, original, rank, c), true)
  }

  lemma CodesStep(t: Tables, text: seq<Byte>, i: nat, size: nat)
    requires WellFormed(t, size) && i < 8 * |text|
    ensures GoodCode(t, Window(text, i, 32), size)
    ensures var bits := Window(text, i, 32);
            var c := Lookup(t, bits).value;
            Codes(t, text, i, size) ==
            if i + c.length > 8 * |text| then [] else [c.value - Leading(bits, c.length)] + Codes(t, text, i + c.length, size)
  {
    hide GoodCode, Lookup, Window;
    WindowFits(text, i, 32);
    assert GoodCode(t, Window(text, i, 32), size);
  }

  lemma ExpandAllCons(t: Tables, dictionary: seq<Entry>, rank: seq<nat>, c: nat, rest: seq<nat>, r: nat)
    requires Ranked(t, dictionary, rank) && Below(dictionary, rank, [c] + rest, r)
    ensures c < |dictionary| && Below(dictionary, rank, rest, r)
    ensures ExpandAll(t, dictionary, rank, [c] + rest, r) ==
            Expand(t, dictionary, rank, c) + ExpandAll(t, dictionary, rank, rest, r)
    ensures dictionary[c].decompressed || rank[c] < r
  {
    hide WellFormed, RankedEntry, Expand;
    var codes := [c] + rest;
    assert codes[0] == c && codes[1..] == rest;
    assert Below(dictionary, rank, rest, r) by {
      forall k | 0 <= k < |rest|
        ensures rest[k] < |dictionary| && (dictionary[rest[k]].decompressed || rank[rest[k]] < r)
      {
        assert codes[k + 1] == rest[k];
      }
    }
  }

  /** What a memoized dictionary tells about an entry. */
  lemma MemoizedEntry(t: Tables, original: seq<Entry>, rank: seq<nat>, dictionary: seq<Entry>, c: nat)
    requires Ranked(t, original, rank) && Memoized(t, original, rank, dictionary) && c < |original|
    ensures |dictionary| == |original|
    ensures dictionary[c].decompressed ==> dictionary[c].value == Expand(t, original, rank, c)
    ensures !dictionary[c].decompressed ==>
              && dictionary[c] == original[c]
              && Below(original, rank, Codes(t, original[c].value, 0, |original|), rank[c])
              && Expand(t, original, rank, c) == ExpandAll(t, original, rank, Codes(t, original[c].value, 0, |original|), rank[c])
  {
    hide Codes, ExpandAll, WellFormed;
    assert RankedEntry(t, original, rank, c);
  }

  lemma MemoizedUpdate(t: Tables, original: seq<Entry>, rank: seq<nat>, dictionary: seq<Entry>, c: nat)
    requires Ranked(t, original, rank) && Memoized(t, original, rank, dictionary) && c < |original|
    ensures |dictionary| == |original|
    ensures Memoized(t, original, rank, dictionary[c := Entry(Expand(t, original, rank, c), true)])
  {
  }

  /** The decompressor with its own dictionary. The ghost fields keep the dictionary as it was loaded. */
  class Decompressor {
    const tables: Tables
    var dictionary: seq<Entry>
    ghost const original: seq<Entry>
    ghost const rank: seq<nat>

    ghost predicate Valid()
      reads this
    {
      Ranked(tables, original, rank) && Memoized(tables, original, rank, dictionary)
    }

    constructor (tables: Tables, dictionary: seq<Entry>, ghost rank: seq<nat>)
      requires Ranked(tables, dictionary, rank)
      ensures Valid() && this.tables == tables && original == dictionary && this.rank == rank && this.dictionary == dictionary
    {
      this.tables := tables;
      this.dictionary := dictionary;
      original := dictionary;
      this.rank := rank;
    }

    /** From every dictionary state that earlier calls can leave, the result is that of the cache-free recursion. */
    method Decompress(byteArray: seq<Byte>, ghost r: nat) returns (output: seq<Byte>)
      requires Valid() && Below(original, rank, Codes(tables, byteArray, 0, |original|), r)
      modifies this
      ensures Valid()
      ensures output == ExpandAll(tables, original, rank, Codes(tables, byteArray, 0, |original|), r)
      decreases r
    {
      hide Codes, Below, Expand, Memoized, WellFormed, RankedEntry, Window, Lookup, Leading;
      output := [];
      var bitLength := 8 * |byteArray|;
      var i := 0;
      ghost var codes := Codes(tables, byteArray, 0, |original|);
      ghost var rest := codes;
      EmptyExpansion(tables, original, rank, r);
      while i < bitLength
        invariant Valid()
        invariant rest == (if i <= bitLength then Codes(tables, byteArray, i, |original|) else [])
        invariant Below(original, rank, rest, r)
        invariant output + ExpandAll(tables, original, rank, rest, r) == ExpandAll(tables, original, rank, codes, r)
        decreases bitLength - i
      {
        var bits := Read32Bits(byteArray, i);
        CodesStep(tables, byteArray, i, |original|);
        var code := FindCode(tables, bits, |original|);
        i := i + code.length;
        if i > bitLength {
          break;
        }
        var c := code.value - Leading(bits, code.length);
        rest := Codes(tables, byteArray, i, |original|);
        ExpandAllCons(tables, original, rank, c, rest, r);
        MemoizedEntry(tables, original, rank, dictionary, c);
        var entry := dictionary[c];
        var result := entry.value;
        if !entry.decompressed {
          result := Decompress(entry.value, rank[c]);
          MemoizedUpdate(tables, original, rank, dictionary, c);
          dictionary := dictionary[c := Entry(result, true)];
        }
        output := output + result;
      }
      NoCodesLeft(tables, byteArray, i, |original|);
    }
  }

  lemma EmptyExpansion(t: Tables, dictionary: seq<Entry>, rank: seq<nat>, r: nat)
    requires Ranked(t, dictionary, rank)
    ensures Below(dictionary, rank, [], r) && ExpandAll(t, dictionary, rank, [], r) == []
  {
  }

  lemma NoCodesLeft(t: Tables, text: seq<Byte>, i: nat, size: nat)
    requires WellFormed(t, size)
    ensures i >= 8 * |text| ==> Codes(t, text, i, size) == []
  {
  }

  /** The search by code length. */
  method FindCode(t: Tables, bits: nat, ghost size: nat) returns (c: Code)
    requires GoodCode(t, bits, size)
    ensures Some(c) == Lookup(t, bits)
  {
    var e := t.table1[Shr(bits, 24)];
    if e.found {
      return Code(e.codeLength, e.value);
    }
    var codeLength := e.codeLength;
    while Leading(bits, codeLength) < t.table2[codeLength].min
      invariant SearchLength(t, bits, e.codeLength) == SearchLength(t, bits, codeLength)
      invariant 1 <= codeLength <= 32 && codeLength < |t.table2|
      decreases 33 - codeLength
    {
      codeLength := codeLength + 1;
    }
    c := Code(codeLength, t.table2[codeLength].max);
  }

  /** A bound on all ranks admits every text, so the outermost call asks nothing of it. */
  lemma EveryTextIsBelow(t: Tables, dictionary: seq<Entry>, rank: seq<nat>, text: seq<Byte>, r: nat)
    requires Ranked(t, dictionary, rank) && forall c :: 0 <= c < |rank| ==> rank[c] < r
    ensures Below(dictionary, rank, Codes(t, text, 0, |dictionary|), r)
  {
  }

  // ----- Every memoized state decodes alike

  lemma MemoizedIsBelow(t: Tables, original: seq<Entry>, rank: seq<nat>, dictionary: seq<Entry>, codes: seq<nat>, r: nat)
    requires Ranked(t, original, rank) && Memoized(t, original, rank, dictionary) && Below(original, rank, codes, r)
    ensures Below(dictionary, rank, codes, r)
  {
  }

  /** Memoizing keeps the ranking, so a memoized dictionary could itself be loaded. */
  lemma MemoizedIsRanked(t: Tables, original: seq<Entry>, rank: seq<nat>, dictionary: seq<Entry>)
    requires Ranked(t, original, rank) && Memoized(t, original, rank, dictionary)
    ensures Ranked(t, dictionary, rank)
  {
    forall c | 0 <= c < |dictionary|
      ensures RankedEntry(t, dictionary, rank, c)
    {
      hide Expand, Codes, Below;
      assert RankedEntry(t, original, rank, c);
      if !dictionary[c].decompressed {
        MemoizedIsBelow(t, original, rank, dictionary, Codes(t, original[c].value, 0, |original|), rank[c]);
      }
    }
  }

  /** The refinement behind the cache: whatever has been memoized, every entry and every text expand as before. */
  lemma {:induction false} MemoizedExpandsAlike(
    t: Tables, original: seq<Entry>, rank: seq<nat>, dictionary: seq<Entry>, codes: seq<nat>, r: nat)
    requires Ranked(t, original, rank) && Memoized(t, original, rank, dictionary) && Below(original, rank, codes, r)
    ensures Ranked(t, dictionary, rank) && Below(dictionary, rank, codes, r)
    ensures ExpandAll(t, dictionary, rank, codes, r) == ExpandAll(t, original, rank, codes, r)
    decreases r, |codes|
  {
    hide Codes, Below, WellFormed, Expand;
    MemoizedIsRanked(t, original, rank, dictionary);
    MemoizedIsBelow(t, original, rank, dictionary, codes, r);
    if codes == [] {
      EmptyExpansion(t, original, rank, r);
      EmptyExpansion(t, dictionary, rank, r);
    } else {
      var c, rest := codes[0], codes[1..];
      assert codes == [c] + rest;
      ExpandAllCons(t, original, rank, c, rest, r);
      ExpandAllCons(t, dictionary, rank, c, rest, r);
      MemoizedExpandsAlike(t, original, rank, dictionary, rest, r);
      MemoizedEntry(t, original, rank, dictionary, c);
      MemoizedRefl(t, dictionary, rank);
      MemoizedEntry(t, dictionary, rank, dictionary, c);
      if !dictionary[c].decompressed {
        MemoizedExpandsAlike(t, original, rank, dictionary, Codes(t, original[c].value, 0, |original|), rank[c]);
      }
    }
  }

  lemma MemoizedRefl(t: Tables, dictionary: seq<Entry>, rank: seq<nat>)
    requires Ranked(t, dictionary, rank)
    ensures Memoized(t, dictionary, rank, dictionary)
  {
  }
}
