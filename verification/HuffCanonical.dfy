/** Canonical codes, given by the lengths of their words alone: each is a prefix code, and has tables. */
module HuffCanonical {
  import opened Wrappers
  import opened Bytes
  import opened HuffCdic
  import opened HuffCode

  // ----- Scaled numbers

  lemma {:induction false} ScaleTwice(v: nat, a: nat, b: nat)
    ensures Scale(Scale(v, a), b) == Scale(v, a + b)
  {
    if b > 0 {
      ScaleTwice(v, a, b - 1);
    }
  }

  lemma {:induction false} ScaleNext(v: nat, n: nat)
    ensures Scale(v + 1, n) == Scale(v, n) + Scale(1, n) && Scale(1, n) > 0
  {
    if n > 0 {
      ScaleNext(v, n - 1);
    }
  }

  lemma {:induction false} ScaleKeepsOrder(u: nat, v: nat, n: nat)
    ensures Scale(u, n) < Scale(v, n) <==> u < v
  {
    if n > 0 {
      ScaleKeepsOrder(u, v, n - 1);
    }
  }

  lemma {:induction false} ShiftedScale(v: nat, n: nat, k: nat)
    requires k <= n
    ensures Shr(Scale(v, n), k) == Scale(v, n - k)
    decreases k
  {
    if k > 0 {
      assert Scale(v, n) / 2 == Scale(v, n - 1);
      ShiftedScale(v, n - 1, k - 1);
    }
  }

  /** Leading bits bound the number that they begin. */
  lemma {:induction false} NumberBetween(bits: seq<Bit>, n: nat)
    requires n <= |bits|
    ensures Scale(Number(bits[..n]), |bits| - n) <= Number(bits) < Scale(Number(bits[..n]) + 1, |bits| - n)
    decreases |bits| - n
  {
    if n == |bits| {
      assert bits[..n] == bits;
    } else {
      var before := bits[..|bits| - 1];
      NumberBetween(before, n);
      assert before[..n] == bits[..n];
    }
  }

  // ----- Canonical words

  const WHOLE: nat := 0x1_0000_0000

  lemma WholeIsScaled()
    ensures Scale(1, 32) == WHOLE
  {
    ScaleTwice(1, 8, 8);
    ScaleTwice(1, 16, 8);
    ScaleTwice(1, 24, 8);
    hide Scale;
    ScaleByte(1);
    ScaleByte(0x100);
    ScaleByte(0x1_0000);
    ScaleByte(0x100_0000);
  }

  /** The room that words take among the 32-bit windows. */
  function Taken(lengths: seq<nat>): nat
    requires forall c :: 0 <= c < |lengths| ==> lengths[c] <= 32
  {
    if lengths == [] then 0 else Taken(lengths[..|lengths| - 1]) + Scale(1, 32 - lengths[|lengths| - 1])
  }

  predicate InOrder(lengths: seq<nat>) {
    && (forall c :: 0 <= c < |lengths| ==> 1 <= lengths[c] <= 32)
    && (forall c, d :: 0 <= c < d < |lengths| ==> lengths[c] <= lengths[d])
  }

  /** The lengths of the words of all entries, shortest first, which leave no window without a word. */
  predicate AreLengths(lengths: seq<nat>) {
    InOrder(lengths) && Taken(lengths) == WHOLE
  }

  lemma {:induction false} TakenGrows(lengths: seq<nat>, j: nat, k: nat)
    requires InOrder(lengths) && j <= k <= |lengths|
    ensures Taken(lengths[..j]) <= Taken(lengths[..k])
    ensures j < k ==> Taken(lengths[..j + 1]) == Taken(lengths[..j]) + Scale(1, 32 - lengths[j]) <= Taken(lengths[..k])
    decreases k
  {
    hide Scale;
    if j < k {
      assert lengths[..j + 1][..j] == lengths[..j] && lengths[..k][..k - 1] == lengths[..k - 1];
      TakenGrows(lengths, j, k - 1);
    }
  }

  lemma {:induction false} ScaledZero(n: nat)
    ensures Scale(0, n) == 0
  {
    if n > 0 {
      ScaledZero(n - 1);
    }
  }

  lemma WordsFit(lengths: seq<nat>, c: nat)
    requires AreLengths(lengths) && c < |lengths|
    ensures Taken(lengths[..c + 1]) == Taken(lengths[..c]) + Scale(1, 32 - lengths[c]) <= WHOLE
    ensures c == 0 ==> Taken(lengths[..c]) == 0
  {
    TakenGrows(lengths, c, |lengths|);
    assert lengths[..|lengths|] == lengths;
  }

  lemma OneLess(longer: nat, n: nat, taken: nat)
    requires Scale(longer, n) + taken == WHOLE && taken + Scale(1, n) <= WHOLE
    ensures longer > 0 && Scale(longer - 1, n) + (taken + Scale(1, n)) == WHOLE
  {
    hide Scale;
    ScaleNext(0, n);
    ScaledZero(n);
    ScaleKeepsOrder(0, longer, n);
    ScaleNext(longer - 1, n);
  }

  lemma FirstFits(lengths: seq<nat>)
    requires AreLengths(lengths) && lengths != []
    ensures Scale(1, lengths[0]) > 0 && Scale(Scale(1, lengths[0]) - 1, 32 - lengths[0]) + Taken(lengths[..1]) == WHOLE
  {
    hide Scale, Taken;
    WordsFit(lengths, 0);
    ScaleTwice(1, lengths[0], 32 - lengths[0]);
    WholeIsScaled();
    OneLess(Scale(1, lengths[0]), 32 - lengths[0], 0);
  }

  lemma NextFits(lengths: seq<nat>, c: nat, before: nat)
    requires AreLengths(lengths) && 0 < c < |lengths| && Scale(before, 32 - lengths[c - 1]) + Taken(lengths[..c]) == WHOLE
    ensures lengths[c - 1] <= lengths[c]
    ensures var longer := Scale(before, lengths[c] - lengths[c - 1]);
            longer > 0 && Scale(longer - 1, 32 - lengths[c]) + Taken(lengths[..c + 1]) == WHOLE
  {
    hide Scale, Taken;
    WordsFit(lengths, c);
    var more := lengths[c] - lengths[c - 1];
    ScaleTwice(before, more, 32 - lengths[c]);
    OneLess(Scale(before, more), 32 - lengths[c], Taken(lengths[..c]));
  }

  /** The first word is all ones; each further one is one less than the one before it, once that is as long. */
  function WordNumber(lengths: seq<nat>, c: nat): (v: nat)
    requires AreLengths(lengths) && c < |lengths|
    ensures Scale(v, 32 - lengths[c]) + Taken(lengths[..c + 1]) == WHOLE
  {
    if c == 0 then
      FirstFits(lengths);
      Scale(1, lengths[0]) - 1
    else
      var before := WordNumber(lengths, c - 1);
      NextFits(lengths, c, before);
      Scale(before, lengths[c] - lengths[c - 1]) - 1
  }

  lemma WordNumberFits(lengths: seq<nat>, c: nat)
    requires AreLengths(lengths) && c < |lengths|
    ensures Fits(WordNumber(lengths, c), lengths[c])
  {
    hide Scale, Taken, WordNumber;
    var v, n := WordNumber(lengths, c), lengths[c];
    WordsFit(lengths, c);
    ScaleNext(0, 32 - n);
    WholeIsScaled();
    ScaleTwice(1, n, 32 - n);
    ScaleKeepsOrder(v, Scale(1, n), 32 - n);
    SmallIsShiftedOut(v, n);
  }

  function CanonicalWords(lengths: seq<nat>): (words: seq<seq<Bit>>)
    requires AreLengths(lengths)
    ensures |words| == |lengths| && forall c :: 0 <= c < |words| ==> |words[c]| == lengths[c]
  {
    seq(|lengths|, c requires 0 <= c < |lengths| => BitsOf(WordNumber(lengths, c), lengths[c]))
  }

  lemma CanonicalNumber(lengths: seq<nat>, c: nat)
    requires AreLengths(lengths) && c < |lengths|
    ensures Number(CanonicalWords(lengths)[c]) == WordNumber(lengths, c)
  {
    hide AreLengths, WordNumber;
    WordNumberFits(lengths, c);
    NumberOfBits(WordNumber(lengths, c), lengths[c]);
  }

  /** The windows that a word takes: those below the words before it. */
  predicate Holds(lengths: seq<nat>, c: nat, v: nat)
    requires InOrder(lengths) && c < |lengths|
  {
    WHOLE - Taken(lengths[..c + 1]) <= v < WHOLE - Taken(lengths[..c])
  }

  /** A window begins with a word exactly when it is one of those. */
  lemma BeginsIffHolds(lengths: seq<nat>, bits: seq<Bit>, c: nat)
    requires AreLengths(lengths) && |bits| == 32 && c < |lengths|
    ensures CanonicalWords(lengths)[c] <= bits <==> Holds(lengths, c, Number(bits))
  {
    hide Scale, Taken, WordNumber, Number, BitsOf;
    var n, v := lengths[c], WordNumber(lengths, c);
    var leading := Number(bits[..n]);
    NumberBetween(bits, n);
    WordsFit(lengths, c);
    ScaleNext(v, 32 - n);
    ScaleKeepsOrder(v, leading + 1, 32 - n);
    ScaleKeepsOrder(leading, v + 1, 32 - n);
    CanonicalNumber(lengths, c);
    BitsOfNumber(bits[..n]);
    var word := CanonicalWords(lengths)[c];
    assert word == BitsOf(v, n) && (word <= bits <==> word == bits[..n]);
  }

  lemma {:induction false} SomeWordHolds(lengths: seq<nat>, v: nat, k: nat) returns (c: nat)
    requires AreLengths(lengths) && 0 < k <= |lengths| && WHOLE - Taken(lengths[..k]) <= v < WHOLE
    ensures c < |lengths| && Holds(lengths, c, v)
    decreases k
  {
    hide Taken;
    NothingTaken(lengths);
    if k == 1 || v < WHOLE - Taken(lengths[..k - 1]) {
      c := k - 1;
    } else {
      c := SomeWordHolds(lengths, v, k - 1);
    }
  }

  lemma NothingTaken(lengths: seq<nat>)
    requires InOrder(lengths)
    ensures Taken(lengths[..0]) == 0
  {
  }

  lemma OnlyOneHolds(lengths: seq<nat>, c: nat, d: nat, v: nat)
    requires AreLengths(lengths) && c < |lengths| && d < |lengths| && Holds(lengths, c, v) && Holds(lengths, d, v)
    ensures c == d
  {
    hide Taken;
    if c < d {
      TakenGrows(lengths, c + 1, d);
    } else if d < c {
      TakenGrows(lengths, d + 1, c);
    }
  }

  /** Canonical words are a prefix code. */
  lemma CanonicalIsCode(lengths: seq<nat>)
    requires AreLengths(lengths)
    ensures IsCode(CanonicalWords(lengths))
  {
    hide Taken, Holds, CanonicalWords, Number;
    var words := CanonicalWords(lengths);
    forall c, d | 0 <= c < |words| && 0 <= d < |words| && words[c] <= words[d]
      ensures c == d
    {
      var bits := words[d] + BitsOf(0, 32 - lengths[d]);
      BeginsIffHolds(lengths, bits, c);
      BeginsIffHolds(lengths, bits, d);
      OnlyOneHolds(lengths, c, d, Number(bits));
    }
    forall bits: seq<Bit> | |bits| == 32
      ensures exists c :: 0 <= c < |words| && words[c] <= bits
    {
      NumberIsBelow(bits);
      NothingTaken(lengths);
      assert lengths[..|lengths|] == lengths && lengths != [];
      var c := SomeWordHolds(lengths, Number(bits), |lengths|);
      BeginsIffHolds(lengths, bits, c);
    }
  }

  lemma NumberIsBelow(bits: seq<Bit>)
    requires |bits| == 32
    ensures Number(bits) < WHOLE
  {
    hide Scale;
    NumberBetween(bits, 0);
    assert bits[..0] == [] && Number([]) == 0;
    WholeIsScaled();
  }

  // ----- Their tables

  /** How many words are no longer than `length`. */
  function UpTo(lengths: seq<nat>, length: nat): (k: nat)
    ensures k <= |lengths|
    ensures InOrder(lengths) ==> forall c :: 0 <= c < |lengths| ==> (lengths[c] <= length <==> c < k)
    decreases |lengths|
  {
    var n := |lengths|;
    if n == 0 then 0 else if lengths[n - 1] <= length then n else UpTo(lengths[..n - 1], length)
  }

  /** The least number for a length is that of the last word no longer, made as long. */
  function LengthEntryOf(lengths: seq<nat>, length: nat): LengthEntry
    requires AreLengths(lengths)
  {
    var k := UpTo(lengths, length);
    var least := if k == 0 then Scale(1, length) else Scale(WordNumber(lengths, k - 1), length - lengths[k - 1]);
    LengthEntry(least, if k == 0 then least else k - 1 + least)
  }

  function ShortWord(words: seq<seq<Bit>>, bits: seq<Bit>): (found: Option<nat>)
    ensures found.Some? ==> found.value < |words| && words[found.value] <= bits
    ensures found.None? ==> forall c :: 0 <= c < |words| ==> !(words[c] <= bits)
  {
    var n := |words|;
    if n == 0 then None else if words[n - 1] <= bits then Some(n - 1) else ShortWord(words[..n - 1], bits)
  }

  function ByteEntryOf(words: seq<seq<Bit>>, b: Byte): ByteEntry {
    match ShortWord(words, ByteBits(b))
    case Some(c) => ByteEntry(true, |words[c]|, c + Number(words[c]))
    case None => ByteEntry(false, 9, 0)
  }

  function ByteTable(words: seq<seq<Bit>>): (table: seq<ByteEntry>)
    ensures |table| == 256
  {
    seq(256, b requires 0 <= b < 256 => ByteEntryOf(words, b))
  }

  function LengthTable(lengths: seq<nat>): (table: seq<LengthEntry>)
    requires AreLengths(lengths)
    ensures |table| == 33
  {
    seq(33, length requires 0 <= length < 33 => LengthEntryOf(lengths, length))
  }

  function TablesOf(lengths: seq<nat>): Tables
    requires AreLengths(lengths)
  {
    Tables(ByteTable(CanonicalWords(lengths)), LengthTable(lengths))
  }

  lemma ByteEntryIsFine(words: seq<seq<Bit>>, b: Byte)
    ensures ByteEntryFits(ByteEntryOf(words, b), words, b)
  {
    hide ByteBits, Number;
  }

  lemma {:induction false} SameLengthDescends(lengths: seq<nat>, c: nat, d: nat)
    requires AreLengths(lengths) && c <= d < |lengths| && lengths[c] == lengths[d]
    ensures c + WordNumber(lengths, c) == d + WordNumber(lengths, d)
    decreases d
  {
    hide Taken;
    if c < d {
      SameLengthDescends(lengths, c, d - 1);
    }
  }

  lemma LengthEntryIsFine(lengths: seq<nat>, length: nat)
    requires AreLengths(lengths) && length <= 32
    ensures LengthEntryFits(LengthEntryOf(lengths, length), CanonicalWords(lengths), length)
  {
    hide Scale, Taken, WordNumber, Number, BitsOf, Shr, AreLengths, CanonicalWords;
    var k, words := UpTo(lengths, length), CanonicalWords(lengths);
    var e := LengthEntryOf(lengths, length);
    forall c | 0 <= c < |words| && |words[c]| == length
      ensures e.min <= Number(words[c]) && e.max == c + Number(words[c])
    {
      CanonicalNumber(lengths, c);
      LastOfLength(lengths, length, c);
    }
    forall c | 0 <= c < |words| && |words[c]| > length
      ensures Number(words[c][..length]) < e.min
    {
      CanonicalNumber(lengths, c);
      LongerIsBelow(lengths, length, c);
      ShiftedNumber(words[c], length);
    }
  }

  lemma LastOfLength(lengths: seq<nat>, length: nat, c: nat)
    requires AreLengths(lengths) && c < |lengths| && lengths[c] == length <= 32
    ensures var e := LengthEntryOf(lengths, length); e.min <= WordNumber(lengths, c) && e.max == c + WordNumber(lengths, c)
  {
    hide Taken, WordNumber;
    var k := UpTo(lengths, length);
    SameLengthDescends(lengths, c, k - 1);
    assert Scale(WordNumber(lengths, k - 1), 0) == WordNumber(lengths, k - 1);
  }

  lemma {:induction false} ShiftedBack(v: nat, n: nat)
    ensures Scale(Shr(v, n), n) <= v
  {
    if n > 0 {
      ShiftedBack(v / 2, n - 1);
    }
  }

  lemma {:induction false} ScaleKeepsWeakOrder(u: nat, v: nat, n: nat)
    requires u <= v
    ensures Scale(u, n) <= Scale(v, n)
  {
    if n > 0 {
      ScaleKeepsWeakOrder(u, v, n - 1);
    }
  }

  /** The least number for a length is where the words no longer stop. */
  lemma LeastIsScaled(lengths: seq<nat>, length: nat)
    requires AreLengths(lengths) && length <= 32
    ensures Scale(LengthEntryOf(lengths, length).min, 32 - length) == WHOLE - Taken(lengths[..UpTo(lengths, length)])
  {
    hide Scale, Taken, WordNumber;
    var k := UpTo(lengths, length);
    if k == 0 {
      ScaleTwice(1, length, 32 - length);
      WholeIsScaled();
      NothingTaken(lengths);
    } else {
      ScaleTwice(WordNumber(lengths, k - 1), length - lengths[k - 1], 32 - length);
    }
  }

  lemma LongerIsBelow(lengths: seq<nat>, length: nat, c: nat)
    requires AreLengths(lengths) && c < |lengths| && lengths[c] > length
    ensures Shr(WordNumber(lengths, c), lengths[c] - length) < LengthEntryOf(lengths, length).min
  {
    hide Scale, Shr, Taken, WordNumber, LengthEntryOf;
    var v, more, least := WordNumber(lengths, c), lengths[c] - length, LengthEntryOf(lengths, length).min;
    var shifted := Shr(v, more);
    LeastIsScaled(lengths, length);
    TakenGrows(lengths, UpTo(lengths, length), c);
    WordsFit(lengths, c);
    ScaleNext(0, 32 - lengths[c]);
    ShiftedBack(v, more);
    ScaleKeepsWeakOrder(Scale(shifted, more), v, 32 - lengths[c]);
    ScaleTwice(shifted, more, 32 - lengths[c]);
    ScaleKeepsOrder(shifted, least, 32 - length);
  }

  /** Every canonical code has tables. */
  lemma TablesFit(lengths: seq<nat>)
    requires AreLengths(lengths)
    ensures AreTables(TablesOf(lengths), CanonicalWords(lengths))
  {
    hide ByteEntryFits, LengthEntryFits, ByteEntryOf, LengthEntryOf, CanonicalWords;
    var t, words := TablesOf(lengths), CanonicalWords(lengths);
    forall b: Byte
      ensures ByteEntryFits(t.table1[b], words, b)
    {
      ByteEntryIsFine(words, b);
    }
    forall length | 1 <= length <= 32
      ensures LengthEntryFits(t.table2[length], words, length)
    {
      LengthEntryIsFine(lengths, length);
    }
  }

  /** With the tables of a canonical code, a text made of its words is decoded to their entries. */
  lemma CanonicalTextIsDecoded(lengths: seq<nat>, text: seq<Byte>, entries: seq<nat>, padding: seq<Bit>)
    requires AreLengths(lengths) && forall k :: 0 <= k < |entries| ==> entries[k] < |lengths|
    requires Bits(text) == Spelled(CanonicalWords(lengths), entries) + padding
    requires forall c :: 0 <= c < |lengths| ==> |padding| < lengths[c]
    ensures WellFormed(TablesOf(lengths), |lengths|) && Codes(TablesOf(lengths), text, 0, |lengths|) == entries
  {
    hide CanonicalWords, TablesOf, AreTables, IsCode, Codes, WellFormed;
    CanonicalIsCode(lengths);
    TablesFit(lengths);
    TextIsDecoded(TablesOf(lengths), CanonicalWords(lengths), text, entries, padding);
  }
}
