/** Prefix codes and their tables: the decoder gives back the entries whose code words the text is made of. */
module HuffCode {
  import opened Wrappers
  import opened Bytes
  import opened HuffCdic

  // ----- Bits

  type Bit = b: int | 0 <= b < 2

  /** The bits of a byte, the most significant first. */
  function ByteBits(b: Byte): (bits: seq<Bit>)
    ensures |bits| == 8
  {
    [b / 128, b / 64 % 2, b / 32 % 2, b / 16 % 2, b / 8 % 2, b / 4 % 2, b / 2 % 2, b % 2]
  }

  function Bits(text: seq<Byte>): (bits: seq<Bit>)
    ensures |bits| == 8 * |text|
  {
    if text == [] then [] else ByteBits(text[0]) + Bits(text[1..])
  }

  /** The number that bits spell, the most significant first. */
  function Number(bits: seq<Bit>): nat {
    if bits == [] then 0 else 2 * Number(bits[..|bits| - 1]) + bits[|bits| - 1]
  }

  function BitsOf(v: nat, n: nat): (bits: seq<Bit>)
    ensures |bits| == n
  {
    if n == 0 then [] else BitsOf(v / 2, n - 1) + [v % 2]
  }

  lemma {:induction false} BitsOfNumber(bits: seq<Bit>)
    ensures BitsOf(Number(bits), |bits|) == bits
    decreases |bits|
  {
    if bits != [] {
      var before, last := bits[..|bits| - 1], bits[|bits| - 1];
      BitsOfNumber(before);
      assert Number(bits) / 2 == Number(before) && Number(bits) % 2 == last;
      assert before + [last] == bits;
    }
  }

  lemma {:induction false} NumberOfBits(v: nat, n: nat)
    requires Fits(v, n)
    ensures Number(BitsOf(v, n)) == v
    decreases n
  {
    if n > 0 {
      NumberOfBits(v / 2, n - 1);
      assert BitsOf(v, n)[..n - 1] == BitsOf(v / 2, n - 1);
    }
  }

  lemma {:induction false} NumberFits(bits: seq<Bit>)
    ensures Fits(Number(bits), |bits|)
    decreases |bits|
  {
    if bits != [] {
      NumberFits(bits[..|bits| - 1]);
      assert Number(bits) / 2 == Number(bits[..|bits| - 1]);
    }
  }

  /** Shifting right leaves the leading bits. */
  lemma {:induction false} ShiftedNumber(bits: seq<Bit>, n: nat)
    requires n <= |bits|
    ensures Shr(Number(bits), |bits| - n) == Number(bits[..n])
    decreases |bits| - n
  {
    if n == |bits| {
      assert bits[..n] == bits;
    } else {
      var before := bits[..|bits| - 1];
      ShiftedNumber(before, n);
      assert before[..n] == bits[..n];
      assert Number(bits) / 2 == Number(before);
    }
  }

  /** Bit by bit, a window is what it shows. */
  function WindowBits(text: seq<Byte>, i: nat, n: nat): (bits: seq<Bit>)
    ensures |bits| == n && forall k :: 0 <= k < n ==> bits[k] == BitAt(text, i + k)
  {
    if n == 0 then [] else WindowBits(text, i, n - 1) + [BitAt(text, i + n - 1)]
  }

  lemma {:induction false} NumberOfWindow(text: seq<Byte>, i: nat, n: nat)
    ensures Number(WindowBits(text, i, n)) == Window(text, i, n)
    decreases n
  {
    hide BitAt;
    if n > 0 {
      NumberOfWindow(text, i, n - 1);
      assert WindowBits(text, i, n)[..n - 1] == WindowBits(text, i, n - 1);
    }
  }

  lemma BitsOfByte(b: Byte)
    ensures BitsOf(b, 8) == ByteBits(b)
  {
    hide BitsOf;
    FourMore(b, 4);
    FourMore(b / 16, 0);
    NoBits(b / 16 / 16);
    Sixteenth(b);
  }

  lemma Sixteenth(b: Byte)
    ensures b / 16 / 8 == b / 128 && b / 16 / 8 < 2 && b / 16 / 4 == b / 64 && b / 16 / 2 == b / 32
  {
  }

  lemma NoBits(v: nat)
    ensures BitsOf(v, 0) == []
  {
  }

  lemma FourMore(v: nat, n: nat)
    ensures BitsOf(v, n + 4) == BitsOf(v / 16, n) + [v / 8 % 2, v / 4 % 2, v / 2 % 2, v % 2]
  {
    LastBit(v, n + 3);
    LastBit(v / 2, n + 2);
    LastBit(v / 4, n + 1);
    LastBit(v / 8, n);
    hide BitsOf;
    assert v / 2 / 2 == v / 4 && v / 4 / 2 == v / 8 && v / 8 / 2 == v / 16;
  }

  lemma LastBit(v: nat, n: nat)
    ensures BitsOf(v, n + 1) == BitsOf(v / 2, n) + [v % 2]
  {
  }

  lemma {:induction false} BitAtPlace(v: nat, n: nat, m: nat)
    requires m < n
    ensures BitsOf(v, n)[m] == Shr(v, n - 1 - m) % 2
    decreases n
  {
    if m < n - 1 {
      BitAtPlace(v / 2, n - 1, m);
    }
  }

  lemma BitOfByte(b: Byte, m: nat)
    requires m < 8
    ensures Shr(b, 7 - m) % 2 == ByteBits(b)[m]
  {
    hide ByteBits, BitsOf, Shr;
    BitsOfByte(b);
    BitAtPlace(b, 8, m);
  }

  lemma {:induction false} BitOfText(text: seq<Byte>, k: nat)
    requires k < 8 * |text|
    ensures BitAt(text, k) == Bits(text)[k]
    decreases text
  {
    hide Shr, ByteBits;
    if k < 8 {
      BitOfByte(text[0], k);
    } else {
      BitOfText(text[1..], k - 8);
      assert (k - 8) / 8 == k / 8 - 1 && (k - 8) % 8 == k % 8;
    }
  }

  lemma {:induction false} ShiftedZero(n: nat)
    ensures Shr(0, n) == 0
  {
    if n > 0 {
      ShiftedZero(n - 1);
    }
  }

  /** What a window shows of a text: its bits, and zeros past its end. */
  lemma WindowShows(text: seq<Byte>, i: nat, n: nat, bits: seq<Bit>)
    requires i <= 8 * |text| && Bits(text)[i..] == bits
    ensures |bits| >= n ==> WindowBits(text, i, n) == bits[..n]
    ensures |bits| < n ==> bits <= WindowBits(text, i, n)
  {
    hide BitAt, Bits;
    var window := WindowBits(text, i, n);
    hide WindowBits;
    forall k | 0 <= k < n && k < |bits|
      ensures window[k] == bits[k]
    {
      BitOfText(text, i + k);
      assert bits[k] == Bits(text)[i + k];
    }
  }

  // ----- Prefix codes

  /** A code word for every entry: one to 32 bits, none the start of another, and one at the start of any 32 bits. */
  ghost predicate IsCode(words: seq<seq<Bit>>) {
    && (forall c :: 0 <= c < |words| ==> 1 <= |words[c]| <= 32)
    && (forall c, d :: 0 <= c < |words| && 0 <= d < |words| && words[c] <= words[d] ==> c == d)
    && (forall bits: seq<Bit> :: |bits| == 32 ==> exists c :: 0 <= c < |words| && words[c] <= bits)
  }

  /** A byte determines the entry, or it does not and then the search starts no later than at the lengths of the words that
      begin with it. A code is the entry and the number that its word spells, taken together. */
  predicate ByteEntryFits(e: ByteEntry, words: seq<seq<Bit>>, b: Byte) {
    if e.found then
      exists c :: 0 <= c < |words| && words[c] <= ByteBits(b) && e == ByteEntry(true, |words[c]|, c + Number(words[c]))
    else
      && 1 <= e.codeLength
      && forall c :: 0 <= c < |words| && (words[c] <= ByteBits(b) || ByteBits(b) <= words[c]) ==> e.codeLength <= |words[c]|
  }

  /** The least number for a length is above the first bits of every longer word, and above no word of the length. */
  predicate LengthEntryFits(e: LengthEntry, words: seq<seq<Bit>>, length: nat) {
    && (forall c :: 0 <= c < |words| && |words[c]| == length ==>
          e.min <= Number(words[c]) && e.max == c + Number(words[c]))
    && (forall c :: 0 <= c < |words| && |words[c]| > length ==> Number(words[c][..length]) < e.min)
  }

  /** The tables that the format prescribes for a code. */
  predicate AreTables(t: Tables, words: seq<seq<Bit>>) {
    && |t.table1| == 256 && |t.table2| == 33
    && (forall b: Byte :: ByteEntryFits(t.table1[b], words, b))
    && (forall length :: 1 <= length <= 32 ==> LengthEntryFits(t.table2[length], words, length))
  }

  lemma SharedStart(a: seq<Bit>, b: seq<Bit>, all: seq<Bit>)
    requires a <= all && b <= all
    ensures a <= b || b <= a
  {
    if |a| <= |b| {
      assert a == all[..|a|] == b[..|a|];
    } else {
      assert b == all[..|b|] == a[..|b|];
    }
  }

  lemma {:induction false} SearchFinds(t: Tables, words: seq<seq<Bit>>, bits: seq<Bit>, c: nat, length: nat)
    requires AreTables(t, words) && |bits| == 32 && c < |words| && words[c] <= bits && 1 <= length <= |words[c]|
    ensures SearchLength(t, Number(bits), length) == Some(|words[c]|)
    ensures t.table2[|words[c]|].max == c + Number(words[c])
    decreases |words[c]| - length
  {
    hide Number, ByteEntryFits;
    ShiftedNumber(bits, length);
    assert LengthEntryFits(t.table2[length], words, length);
    assert words[c][..length] == bits[..length];
    if length < |words[c]| {
      SearchFinds(t, words, bits, c, length + 1);
    } else {
      assert words[c][..length] == words[c];
    }
  }

  lemma FirstByte(bits: seq<Bit>)
    requires |bits| == 32
    ensures Shr(Number(bits), 24) < 256
    ensures var b: Byte := Shr(Number(bits), 24); ByteBits(b) <= bits
  {
    ShiftedNumber(bits, 8);
    ByteOfBits(bits[..8]);
  }

  lemma ByteOfBits(bits: seq<Bit>)
    requires |bits| == 8
    ensures Number(bits) < 256
    ensures var b: Byte := Number(bits); ByteBits(b) == bits
  {
    hide ByteBits, Number, BitsOf;
    NumberFits(bits);
    EightBitsFit(Number(bits));
    BitsOfNumber(bits);
    BitsOfByte(Number(bits));
  }

  lemma EightBitsFit(v: nat)
    requires Fits(v, 8)
    ensures v < 256
  {
    NextShift(v, 7);
    NextShift(v / 2, 6);
    NextShift(v / 4, 5);
    NextShift(v / 8, 4);
    NextShift(v / 16, 3);
    NextShift(v / 32, 2);
    NextShift(v / 64, 1);
    NextShift(v / 128, 0);
    hide Shr;
    assert v / 2 / 2 == v / 4 && v / 4 / 2 == v / 8 && v / 8 / 2 == v / 16;
    assert v / 16 / 2 == v / 32 && v / 32 / 2 == v / 64 && v / 64 / 2 == v / 128 && v / 128 / 2 == v / 256;
  }

  lemma NextShift(v: nat, n: nat)
    ensures Shr(v, n + 1) == Shr(v / 2, n) && (n == 0 ==> Shr(v, n) == v && Shr(v / 2, n) == v / 2)
  {
  }

  /** Looking a window up finds the entry whose word it begins with. */
  lemma WordIsLookedUp(t: Tables, words: seq<seq<Bit>>, bits: seq<Bit>, c: nat)
    requires IsCode(words) && AreTables(t, words) && |bits| == 32 && c < |words| && words[c] <= bits
    ensures Lookup(t, Number(bits)) == Some(Code(|words[c]|, c + Number(words[c])))
    ensures Leading(Number(bits), |words[c]|) == Number(words[c])
  {
    hide Number, ByteBits, SearchLength, LengthEntryFits;
    FirstByte(bits);
    ShiftedNumber(bits, |words[c]|);
    assert bits[..|words[c]|] == words[c];
    var b: Byte := Shr(Number(bits), 24);
    var e := t.table1[b];
    assert ByteEntryFits(e, words, b);
    SharedStart(words[c], ByteBits(b), bits);
    if e.found {
      var d :| 0 <= d < |words| && words[d] <= ByteBits(b) && e == ByteEntry(true, |words[d]|, d + Number(words[d]));
      SharedStart(words[c], words[d], bits);
    } else {
      SearchFinds(t, words, bits, c, e.codeLength);
    }
  }

  /** The tables of a code give every window an entry. */
  lemma TablesAreWellFormed(t: Tables, words: seq<seq<Bit>>)
    requires IsCode(words) && AreTables(t, words)
    ensures WellFormed(t, |words|)
  {
    hide Number, AreTables, Lookup, Leading;
    forall v: nat | Fits(v, 32)
      ensures GoodCode(t, v, |words|)
    {
      NumberOfBits(v, 32);
      var bits := BitsOf(v, 32);
      var c :| 0 <= c < |words| && words[c] <= bits;
      WordIsLookedUp(t, words, bits, c);
    }
  }

  // ----- Decoding

  function Spelled(words: seq<seq<Bit>>, entries: seq<nat>): seq<Bit>
    requires forall k :: 0 <= k < |entries| ==> entries[k] < |words|
  {
    if entries == [] then [] else words[entries[0]] + Spelled(words, entries[1..])
  }

  /** The step at a window that begins with a code word. */
  lemma NextCode(t: Tables, words: seq<seq<Bit>>, text: seq<Byte>, i: nat, c: nat)
    requires IsCode(words) && AreTables(t, words) && WellFormed(t, |words|)
    requires i < 8 * |text| && c < |words| && words[c] <= WindowBits(text, i, 32)
    ensures Codes(t, text, i, |words|) ==
            if i + |words[c]| > 8 * |text| then [] else [c] + Codes(t, text, i + |words[c]|, |words|)
  {
    hide Number, WindowBits, AreTables, Lookup, Leading, Codes, WellFormed, Window;
    NumberOfWindow(text, i, 32);
    WordIsLookedUp(t, words, WindowBits(text, i, 32), c);
    CodesStep(t, text, i, |words|);
  }

  lemma WordComes(words: seq<seq<Bit>>, text: seq<Byte>, i: nat, c: nat, rest: seq<Bit>)
    requires IsCode(words) && c < |words| && i <= 8 * |text| && Bits(text)[i..] == words[c] + rest
    ensures i + |words[c]| <= 8 * |text| && words[c] <= WindowBits(text, i, 32)
    ensures Bits(text)[i + |words[c]|..] == rest
  {
    hide Bits, WindowBits;
    var all := Bits(text)[i..];
    WindowShows(text, i, 32, all);
    WordInWindow(words[c], all, WindowBits(text, i, 32));
    assert Bits(text)[i + |words[c]|..] == all[|words[c]|..];
  }

  lemma PaddingEnds(t: Tables, words: seq<seq<Bit>>, text: seq<Byte>, i: nat, padding: seq<Bit>)
    requires IsCode(words) && AreTables(t, words) && WellFormed(t, |words|)
    requires i <= 8 * |text| && Bits(text)[i..] == padding && forall c :: 0 <= c < |words| ==> !(words[c] <= padding)
    ensures Codes(t, text, i, |words|) == []
  {
    hide Bits, WindowBits, AreTables, Codes, WellFormed;
    if i == 8 * |text| {
      NoCodesLeft(t, text, i, |words|);
    } else {
      var bits := WindowBits(text, i, 32);
      var c :| 0 <= c < |words| && words[c] <= bits;
      NextCode(t, words, text, i, c);
      WindowShows(text, i, 32, padding);
      if |words[c]| <= |padding| {
        WordInPadding(words[c], bits, padding);
      }
    }
  }

  lemma {:induction false} CodesFrom(t: Tables, words: seq<seq<Bit>>, text: seq<Byte>, i: nat, entries: seq<nat>, padding: seq<Bit>)
    requires IsCode(words) && AreTables(t, words) && WellFormed(t, |words|)
    requires forall k :: 0 <= k < |entries| ==> entries[k] < |words|
    requires i <= 8 * |text| && Bits(text)[i..] == Spelled(words, entries) + padding
    requires forall c :: 0 <= c < |words| ==> !(words[c] <= padding)
    ensures Codes(t, text, i, |words|) == entries
    decreases |entries|
  {
    hide Bits, WindowBits, IsCode, AreTables, Codes, WellFormed;
    if entries == [] {
      assert Bits(text)[i..] == padding;
      PaddingEnds(t, words, text, i, padding);
    } else {
      var c, rest := entries[0], Spelled(words, entries[1..]) + padding;
      assert Bits(text)[i..] == words[c] + rest;
      WordComes(words, text, i, c, rest);
      WordIsNotEmpty(words, c);
      NextCode(t, words, text, i, c);
      CodesFrom(t, words, text, i + |words[c]|, entries[1..], padding);
      assert entries == [c] + entries[1..];
    }
  }

  lemma WordIsNotEmpty(words: seq<seq<Bit>>, c: nat)
    requires IsCode(words) && c < |words|
    ensures 1 <= |words[c]| <= 32
  {
  }

  /** A text made of code words, and padding that no word is the start of, is decoded to exactly their entries. */
  lemma TextIsDecoded(t: Tables, words: seq<seq<Bit>>, text: seq<Byte>, entries: seq<nat>, padding: seq<Bit>)
    requires IsCode(words) && AreTables(t, words)
    requires forall k :: 0 <= k < |entries| ==> entries[k] < |words|
    requires Bits(text) == Spelled(words, entries) + padding
    requires forall c :: 0 <= c < |words| ==> !(words[c] <= padding)
    ensures WellFormed(t, |words|) && Codes(t, text, 0, |words|) == entries
  {
    hide IsCode, AreTables, Codes, Bits;
    TablesAreWellFormed(t, words);
    assert Bits(text)[0..] == Bits(text);
    CodesFrom(t, words, text, 0, entries, padding);
  }

  lemma WordInWindow(word: seq<Bit>, rest: seq<Bit>, bits: seq<Bit>)
    requires word <= rest && |word| <= |bits|
    requires if |rest| < |bits| then rest <= bits else bits == rest[..|bits|]
    ensures word <= bits
  {
    if |rest| >= |bits| {
      SharedStart(word, bits, rest);
    }
  }

  lemma WordInPadding(word: seq<Bit>, bits: seq<Bit>, padding: seq<Bit>)
    requires word <= bits && |word| <= |padding|
    requires if |padding| < |bits| then padding <= bits else bits == padding[..|bits|]
    ensures word <= padding
  {
    if |padding| < |bits| {
      SharedStart(word, padding, bits);
    }
  }

  // ----- Compressing a dictionary, and expanding it again

  /** How an entry was written: as it is, or by the words of other entries, and padding. */
  datatype Writing = Plain | Coded(entries: seq<nat>, padding: seq<Bit>)

  /** Padding that no code word is the start of. */
  predicate IsPadding(words: seq<seq<Bit>>, padding: seq<Bit>) {
    forall c :: 0 <= c < |words| ==> !(words[c] <= padding)
  }

  predicate AreEntries(words: seq<seq<Bit>>, entries: seq<nat>) {
    forall k :: 0 <= k < |entries| ==> entries[k] < |words|
  }

  predicate IsSpelled(words: seq<seq<Bit>>, text: seq<Byte>, entries: seq<nat>, padding: seq<Bit>) {
    AreEntries(words, entries) && IsPadding(words, padding) && Bits(text) == Spelled(words, entries) + padding
  }

  /** What entries stand for, one after the other. */
  function Joined(meanings: seq<seq<Byte>>, entries: seq<nat>): seq<Byte>
    requires forall k :: 0 <= k < |entries| ==> entries[k] < |meanings|
  {
    if entries == [] then [] else meanings[entries[0]] + Joined(meanings, entries[1..])
  }

  /** The dictionary holds what was written for each entry; a coded one refers to entries that are plain or of lower rank. */
  ghost predicate IsWritten(words: seq<seq<Bit>>, writings: seq<Writing>, meanings: seq<seq<Byte>>, rank: seq<nat>, dictionary: seq<Entry>) {
    && |words| == |writings| == |meanings| == |rank| == |dictionary|
    && forall c :: 0 <= c < |words| ==> EntryIsWritten(words, writings, meanings, rank, dictionary, c)
  }

  ghost predicate EntryIsWritten(words: seq<seq<Bit>>, writings: seq<Writing>, meanings: seq<seq<Byte>>, rank: seq<nat>, dictionary: seq<Entry>, c: nat)
    requires |words| == |writings| == |meanings| == |rank| == |dictionary| && c < |words|
  {
    match writings[c]
    case Plain => dictionary[c] == Entry(meanings[c], true)
    case Coded(entries, padding) =>
      && !dictionary[c].decompressed && IsSpelled(words, dictionary[c].value, entries, padding)
      && meanings[c] == Joined(meanings, entries)
      && Below(dictionary, rank, entries, rank[c])
  }

  lemma WrittenIsRanked(t: Tables, words: seq<seq<Bit>>, writings: seq<Writing>, meanings: seq<seq<Byte>>, rank: seq<nat>, dictionary: seq<Entry>)
    requires IsCode(words) && AreTables(t, words) && IsWritten(words, writings, meanings, rank, dictionary)
    ensures Ranked(t, dictionary, rank)
  {
    hide IsCode, AreTables, WellFormed, Codes, Below, Bits;
    TablesAreWellFormed(t, words);
    forall c | 0 <= c < |dictionary|
      ensures RankedEntry(t, dictionary, rank, c)
    {
      assert EntryIsWritten(words, writings, meanings, rank, dictionary, c);
      if writings[c].Coded? {
        TextIsDecoded(t, words, dictionary[c].value, writings[c].entries, writings[c].padding);
      }
    }
  }

  /** Every entry expands to what it stands for. */
  lemma {:induction false} EntriesExpand(t: Tables, words: seq<seq<Bit>>, writings: seq<Writing>, meanings: seq<seq<Byte>>,
                                         rank: seq<nat>, dictionary: seq<Entry>, entries: seq<nat>, r: nat)
    requires IsCode(words) && AreTables(t, words) && IsWritten(words, writings, meanings, rank, dictionary)
    requires Ranked(t, dictionary, rank) && AreEntries(words, entries) && Below(dictionary, rank, entries, r)
    ensures ExpandAll(t, dictionary, rank, entries, r) == Joined(meanings, entries)
    decreases r, |entries|
  {
    hide IsCode, AreTables, WellFormed, Codes, Below, Bits, RankedEntry, Memoized;
    if entries == [] {
      EmptyExpansion(t, dictionary, rank, r);
    } else {
      var c := entries[0];
      assert entries == [c] + entries[1..];
      ExpandAllCons(t, dictionary, rank, c, entries[1..], r);
      EntriesExpand(t, words, writings, meanings, rank, dictionary, entries[1..], r);
      MemoizedRefl(t, dictionary, rank);
      MemoizedEntry(t, dictionary, rank, dictionary, c);
      assert EntryIsWritten(words, writings, meanings, rank, dictionary, c);
      if writings[c].Coded? {
        TextIsDecoded(t, words, dictionary[c].value, writings[c].entries, writings[c].padding);
        EntriesExpand(t, words, writings, meanings, rank, dictionary, writings[c].entries, rank[c]);
      }
    }
  }

  /** Decompression undoes compression: a text spelled in the code of a dictionary expands to what its entries stand for. */
  lemma TextExpands(t: Tables, words: seq<seq<Bit>>, writings: seq<Writing>, meanings: seq<seq<Byte>>,
                    rank: seq<nat>, dictionary: seq<Entry>, text: seq<Byte>, entries: seq<nat>, padding: seq<Bit>, r: nat)
    requires IsCode(words) && AreTables(t, words) && IsWritten(words, writings, meanings, rank, dictionary)
    requires IsSpelled(words, text, entries, padding) && forall c :: 0 <= c < |rank| ==> rank[c] < r
    ensures Ranked(t, dictionary, rank) && Below(dictionary, rank, Codes(t, text, 0, |dictionary|), r)
    ensures ExpandAll(t, dictionary, rank, Codes(t, text, 0, |dictionary|), r) == Joined(meanings, entries)
  {
    hide IsCode, AreTables, Codes, Bits, ExpandAll, IsWritten, EntryIsWritten, RankedEntry, WellFormed, Below;
    WrittenIsRanked(t, words, writings, meanings, rank, dictionary);
    EveryTextIsBelow(t, dictionary, rank, text, r);
    TextIsDecoded(t, words, text, entries, padding);
    assert |words| == |dictionary| by {
      WrittenSizes(words, writings, meanings, rank, dictionary);
    }
    EntriesExpand(t, words, writings, meanings, rank, dictionary, entries, r);
  }

  lemma WrittenSizes(words: seq<seq<Bit>>, writings: seq<Writing>, meanings: seq<seq<Byte>>, rank: seq<nat>, dictionary: seq<Entry>)
    requires IsWritten(words, writings, meanings, rank, dictionary)
    ensures |words| == |writings| == |meanings| == |rank| == |dictionary|
  {
  }
}
