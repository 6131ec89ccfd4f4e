/** The PalmDOC decompressor inverts its encoding, and never grows its input more than fivefold. */
module PalmDoc {
  import opened Bytes

  // ----- The decompressor

  /** An element of the output; what lies outside becomes zero in the final byte array. */
  function OutputAt(output: seq<Byte>, k: int): Byte {
    if 0 <= k < |output| then output[k] else 0
  }

  function CopyBack(output: seq<Byte>, distance: nat, length: nat): seq<Byte>
    decreases length
  {
    if length == 0 then output
    else CopyBack(output + [OutputAt(output, |output| - distance)], distance, length - 1)
  }

  /** Distance and length of the pair that starts at a byte from 0x80 to 0xBF. */
  function PairDistance(byte: Byte, next: Byte): nat {
    (byte % 64 * 256 + next) / 8
  }

  function PairLength(next: Byte): nat {
    next % 8 + 3
  }

  function DecodeFrom(s: seq<Byte>, i: nat, output: seq<Byte>): seq<Byte>
    decreases |s| - i
  {
    if i >= |s| then output
    else if s[i] == 0 then DecodeFrom(s, i + 1, output + [0])
    else if s[i] <= 8 then DecodeFrom(s, i + 1 + s[i], output + s[i + 1..Min(i + 1 + s[i], |s|)])
    else if s[i] <= 0x7F then DecodeFrom(s, i + 1, output + [s[i]])
    else if s[i] <= 0xBF then
      var next := ByteOrZero(s, i + 1);
      DecodeFrom(s, i + 2, CopyBack(output, PairDistance(s[i], next), PairLength(next)))
    else DecodeFrom(s, i + 1, output + [32, s[i] - 128])
  }

  method DecompressPalmDOC(compressed: seq<Byte>) returns (output: seq<Byte>)
    ensures output == DecodeFrom(compressed, 0, [])
  {
    output := [];
    var i := 0;
    while i < |compressed|
      invariant DecodeFrom(compressed, i, output) == DecodeFrom(compressed, 0, [])
      decreases |compressed| - i
    {
      var byte := compressed[i];
      if byte == 0 {
        output := output + [0];
      } else if byte <= 8 {
        var last := Min(i + 1 + byte, |compressed|);
        ghost var before := output;
        for k := i + 1 to last
          invariant output == before + compressed[i + 1..k]
        {
          output := output + [compressed[k]];
        }
        i := i + byte;
      } else if byte <= 0x7F {
        output := output + [byte];
      } else if byte <= 0xBF {
        var next := ByteOrZero(compressed, i + 1);
        i := i + 1;
        var distance, length := PairDistance(byte, next), PairLength(next);
        ghost var before := output;
        for j := 0 to length
          invariant CopyBack(output, distance, length - j) == CopyBack(before, distance, length)
        {
          output := output + [OutputAt(output, |output| - distance)];
        }
      } else {
        output := output + [32, byte - 128];
      }
      i := i + 1;
    }
  }

  // ----- The encoding

  /** One unit of compressed text. */
  datatype Item =
    | Literal(b: Byte)
    | Run(bytes: seq<Byte>)
    | Copy(distance: nat, length: nat)
    | SpaceAnd(c: Byte)

  predicate ValidItem(produced: nat, item: Item) {
    match item
    case Literal(b) => b == 0 || 9 <= b <= 0x7F
    case Run(bytes) => 1 <= |bytes| <= 8
    case Copy(distance, length) => 1 <= distance <= 2047 && distance <= produced && 3 <= length <= 10
    case SpaceAnd(c) => 0x40 <= c <= 0x7F
  }

  /** The text an item adds; a copy longer than its distance repeats the last `distance` bytes. */
  function Added(text: seq<Byte>, item: Item): seq<Byte>
    requires ValidItem(|text|, item)
  {
    match item
    case Literal(b) => [b]
    case Run(bytes) => bytes
    case Copy(distance, length) => Repeated(text, distance, length)
    case SpaceAnd(c) => [32, c]
  }

  function Repeated(text: seq<Byte>, distance: nat, length: nat): (r: seq<Byte>)
    requires 1 <= distance <= |text|
    ensures |r| == length
  {
    seq(length, k requires 0 <= k < length => text[|text| - distance + k % distance])
  }

  predicate ValidItems(text: seq<Byte>, items: seq<Item>)
    decreases items
  {
    items == [] || (ValidItem(|text|, items[0]) && ValidItems(text + Added(text, items[0]), items[1..]))
  }

  function Meaning(text: seq<Byte>, items: seq<Item>): seq<Byte>
    requires ValidItems(text, items)
    decreases items
  {
    if items == [] then text else Meaning(text + Added(text, items[0]), items[1..])
  }

  function EncodeItem(produced: nat, item: Item): seq<Byte>
    requires ValidItem(produced, item)
  {
    match item
    case Literal(b) => [b]
    case Run(bytes) => [|bytes|] + bytes
    case Copy(distance, length) =>
      var pair := 0x8000 + 8 * distance + (length - 3);
      [pair / 256, pair % 256]
    case SpaceAnd(c) => [c + 128]
  }

  function Encode(text: seq<Byte>, items: seq<Item>): seq<Byte>
    requires ValidItems(text, items)
    decreases items
  {
    if items == [] then [] else EncodeItem(|text|, items[0]) + Encode(text + Added(text, items[0]), items[1..])
  }

  // ----- Decoding inverts encoding

  /** Copying byte by byte from what has just been written is repetition, overlapping or not. */
  lemma {:induction false} CopyBackRepeats(text: seq<Byte>, distance: nat, done: nat, length: nat)
    requires 1 <= distance <= |text|
    ensures CopyBack(text + Repeated(text, distance, done), distance, length) == text + Repeated(text, distance, done + length)
    decreases length
  {
    if length > 0 {
      var output := text + Repeated(text, distance, done);
      var next := OutputAt(output, |output| - distance);
      assert next == text[|text| - distance + done % distance] by {
        if done < distance {
          assert done % distance == done;
        } else {
          WrapAround(done, distance);
        }
      }
      assert output + [next] == text + Repeated(text, distance, done + 1);
      CopyBackRepeats(text, distance, done + 1, length - 1);
    }
  }

  lemma MultipleAtLeast(x: int, d: nat)
    requires x >= 1
    ensures x * d >= d
  {
  }

  lemma QuotientIsUnique(d: nat, q: int, r: nat, q': int, r': nat)
    requires r < d && r' < d && q * d + r == q' * d + r'
    ensures r == r'
  {
    if q < q' {
      MultipleAtLeast(q' - q, d);
    } else if q' < q {
      MultipleAtLeast(q - q', d);
    }
  }

  lemma WrapAround(k: nat, d: nat)
    requires 1 <= d <= k
    ensures (k - d) % d == k % d
  {
    var q, r := k / d, k % d;
    var q', r' := (k - d) / d, (k - d) % d;
    assert k == q * d + r && k - d == q' * d + r';
    assert q * d + r == (q' + 1) * d + r';
    QuotientIsUnique(d, q, r, q' + 1, r');
  }

  lemma PairFields(distance: nat, length: nat)
    requires 1 <= distance <= 2047 && 3 <= length <= 10
    ensures var pair := 0x8000 + 8 * distance + (length - 3);
            && 0x80 <= pair / 256 <= 0xBF
            && PairDistance(pair / 256, pair % 256) == distance
            && PairLength(pair % 256) == length
  {
  }

  lemma DecodeRun(s: seq<Byte>, i: nat, text: seq<Byte>, bytes: seq<Byte>)
    requires 1 <= |bytes| <= 8 && i + 1 + |bytes| <= |s| && s[i..i + 1 + |bytes|] == [|bytes|] + bytes
    ensures DecodeFrom(s, i, text) == DecodeFrom(s, i + 1 + |bytes|, text + bytes)
  {
    assert s[i] == s[i..i + 1 + |bytes|][0];
    assert s[i + 1..i + 1 + |bytes|] == s[i..i + 1 + |bytes|][1..] == bytes;
  }

  lemma DecodeCopy(s: seq<Byte>, i: nat, text: seq<Byte>, distance: nat, length: nat)
    requires ValidItem(|text|, Copy(distance, length))
    requires i + 2 <= |s| && s[i..i + 2] == EncodeItem(|text|, Copy(distance, length))
    ensures DecodeFrom(s, i, text) == DecodeFrom(s, i + 2, text + Repeated(text, distance, length))
  {
    hide CopyBack, PairDistance, PairLength;
    var pair := 0x8000 + 8 * distance + (length - 3);
    assert s[i] == s[i..i + 2][0] == pair / 256;
    assert s[i + 1] == s[i..i + 2][1] == pair % 256;
    PairFields(distance, length);
    CopyBackRepeats(text, distance, 0, length);
    assert text + Repeated(text, distance, 0) == text;
  }

  lemma DecodeByte(s: seq<Byte>, i: nat, text: seq<Byte>)
    requires i < |s|
    ensures s[i] == 0 || 9 <= s[i] <= 0x7F ==> DecodeFrom(s, i, text) == DecodeFrom(s, i + 1, text + [s[i]])
    ensures s[i] >= 0xC0 ==> DecodeFrom(s, i, text) == DecodeFrom(s, i + 1, text + [32, s[i] - 128])
  {
  }

  /** One encoded item, wherever it stands, is decoded to what it adds. */
  lemma DecodeItem(s: seq<Byte>, i: nat, text: seq<Byte>, item: Item)
    requires ValidItem(|text|, item)
    requires var code := EncodeItem(|text|, item); i + |code| <= |s| && s[i..i + |code|] == code
    ensures DecodeFrom(s, i, text) == DecodeFrom(s, i + |EncodeItem(|text|, item)|, text + Added(text, item))
  {
    hide DecodeFrom, Repeated;
    var code := EncodeItem(|text|, item);
    assert s[i] == s[i..i + |code|][0] == code[0];
    match item {
      case Literal(b) => DecodeByte(s, i, text);
      case Run(bytes) => DecodeRun(s, i, text, bytes);
      case Copy(distance, length) => DecodeCopy(s, i, text, distance, length);
      case SpaceAnd(c) => DecodeByte(s, i, text);
    }
  }

  lemma DecodingStops(s: seq<Byte>, text: seq<Byte>)
    ensures DecodeFrom(s + [], |s|, text) == text
  {
  }

  lemma {:induction false} DecodeItems(before: seq<Byte>, text: seq<Byte>, items: seq<Item>)
    requires ValidItems(text, items)
    ensures DecodeFrom(before + Encode(text, items), |before|, text) == Meaning(text, items)
    decreases items
  {
    hide DecodeFrom, EncodeItem, Added, ValidItem;
    if items == [] {
      DecodingStops(before, text);
    } else {
      var code := EncodeItem(|text|, items[0]);
      var text' := text + Added(text, items[0]);
      var rest := Encode(text', items[1..]);
      var s := before + (code + rest);
      assert s == before + code + rest && s[|before|..|before| + |code|] == code;
      DecodeItem(s, |before|, text, items[0]);
      DecodeItems(before + code, text', items[1..]);
    }
  }

  /** Decompressing the encoding of any item list gives its meaning. */
  lemma DecodingInvertsEncoding(items: seq<Item>)
    requires ValidItems([], items)
    ensures DecodeFrom(Encode([], items), 0, []) == Meaning([], items)
  {
    DecodeItems([], [], items);
    assert [] + Encode([], items) == Encode([], items);
  }

  function OneByteRuns(text: seq<Byte>): seq<Item> {
    if text == [] then [] else [Run(text[..1])] + OneByteRuns(text[1..])
  }

  /** Every text has an encoding, so every text is the result of some decompression. */
  lemma {:induction false} EveryTextEncodes(text: seq<Byte>, more: seq<Byte>)
    ensures ValidItems(text, OneByteRuns(more)) && Meaning(text, OneByteRuns(more)) == text + more
    decreases more
  {
    if more == [] {
      assert text + more == text;
    } else {
      EveryTextEncodes(text + more[..1], more[1..]);
      assert text + more[..1] + more[1..] == text + more;
    }
  }

  // ----- Any other input

  /** The two bytes of any pair are its distance and its length, as in its encoding. */
  lemma PairIs(byte: Byte, next: Byte)
    requires 0x80 <= byte <= 0xBF
    ensures PairDistance(byte, next) <= 2047 && 3 <= PairLength(next) <= 10
    ensures 0x8000 + 8 * PairDistance(byte, next) + (PairLength(next) - 3) == 256 * (byte as int) + next
  {
  }

  predicate RepeatsFrom(copied: seq<Byte>, k: nat, distance: nat)
    requires k < |copied|
  {
    copied[k] == if distance == 0 || k < distance then 0 else copied[k - distance]
  }

  /** Whatever the distance, each byte that is copied is the one that stands so far before it, and zero when that is itself
      or lies before the text. */
  lemma {:induction false} AnyCopy(text: seq<Byte>, distance: nat, length: nat)
    ensures var copied := CopyBack(text, distance, length);
            && |copied| == |text| + length && copied[..|text|] == text
            && forall k :: |text| <= k < |copied| ==> RepeatsFrom(copied, k, distance)
    decreases length
  {
    if length > 0 {
      var text' := text + [OutputAt(text, |text| - distance)];
      AnyCopy(text', distance, length - 1);
      var copied := CopyBack(text', distance, length - 1);
      assert copied[..|text|] == text'[..|text|] == text by {
        assert copied[..|text'|][..|text|] == copied[..|text|];
      }
      assert copied[|text|] == copied[..|text'|][|text|] == text'[|text|];
      if 0 < distance <= |text| {
        assert copied[|text| - distance] == copied[..|text|][|text| - distance];
      }
      assert RepeatsFrom(copied, |text|, distance);
    }
  }

  /** A run that is cut off gives the bytes that are there. */
  lemma CutOffRun(before: seq<Byte>, text: seq<Byte>, n: Byte, bytes: seq<Byte>)
    requires 1 <= n <= 8 && |bytes| <= n
    ensures DecodeFrom(before + [n] + bytes, |before|, text) == text + bytes
  {
    var s, i := before + [n] + bytes, |before|;
    assert s[i + 1..] == bytes && s[i + 1..|s|] == bytes;
    assert s[i + 1..Min(i + 1 + n, |s|)] == bytes;
  }

  /** A pair that is cut off is one whose second byte is zero. */
  lemma CutOffPair(before: seq<Byte>, text: seq<Byte>, byte: Byte)
    requires 0x80 <= byte <= 0xBF
    ensures DecodeFrom(before + [byte], |before|, text) == DecodeFrom(before + [byte, 0], |before|, text)
    ensures DecodeFrom(before + [byte], |before|, text) == CopyBack(text, PairDistance(byte, 0), 3)
  {
    hide DecodeFrom, CopyBack, PairDistance;
    LastPair(before + [byte], |before|, text);
    LastPair(before + [byte, 0], |before|, text);
  }

  lemma LastPair(s: seq<Byte>, i: nat, text: seq<Byte>)
    requires i < |s| <= i + 2 && 0x80 <= s[i] <= 0xBF && ByteOrZero(s, i + 1) == 0
    ensures DecodeFrom(s, i, text) == CopyBack(text, PairDistance(s[i], 0), 3)
  {
    hide CopyBack, PairDistance;
    assert PairLength(0) == 3;
    var copied := CopyBack(text, PairDistance(s[i], 0), 3);
    assert DecodeFrom(s, i + 2, copied) == copied;
  }

  // ----- Growth

  lemma {:induction false} CopyBackLength(output: seq<Byte>, distance: nat, length: nat)
    ensures |CopyBack(output, distance, length)| == |output| + length
    decreases length
  {
    if length > 0 {
      CopyBackLength(output + [OutputAt(output, |output| - distance)], distance, length - 1);
    }
  }

  /** On every input, well formed or not, the output is at most five times as long. */
  lemma {:induction false} GrowthIsAtMostFivefold(s: seq<Byte>, i: nat, output: seq<Byte>)
    ensures |DecodeFrom(s, i, output)| <= |output| + (if i < |s| then 5 * (|s| - i) else 0)
    decreases |s| - i
  {
    if i < |s| {
      if s[i] == 0 {
        GrowthIsAtMostFivefold(s, i + 1, output + [0]);
      } else if s[i] <= 8 {
        GrowthIsAtMostFivefold(s, i + 1 + s[i], output + s[i + 1..Min(i + 1 + s[i], |s|)]);
      } else if s[i] <= 0x7F {
        GrowthIsAtMostFivefold(s, i + 1, output + [s[i]]);
      } else if s[i] <= 0xBF {
        var next := ByteOrZero(s, i + 1);
        CopyBackLength(output, PairDistance(s[i], next), PairLength(next));
        GrowthIsAtMostFivefold(s, i + 2, CopyBack(output, PairDistance(s[i], next), PairLength(next)));
        LastPairLength(s, i);
      } else {
        GrowthIsAtMostFivefold(s, i + 1, output + [32, s[i] - 128]);
      }
    }
  }

  /** A pair cut off after its first byte copies three bytes. */
  lemma LastPairLength(s: seq<Byte>, i: nat)
    requires i < |s|
    ensures PairLength(ByteOrZero(s, i + 1)) <= if i + 1 < |s| then 10 else 3
  {
  }

  /** The bound is attained. */
  lemma FivefoldIsAttained()
    ensures |DecodeFrom([0x80, 0x0F], 0, [])| == 10
  {
    hide CopyBack;
    var s := [0x80, 0x0F];
    assert PairLength(ByteOrZero(s, 1)) == 10;
    var copied := CopyBack([], PairDistance(0x80, 0x0F), 10);
    CopyBackLength([], PairDistance(0x80, 0x0F), 10);
    assert DecodeFrom(s, 0, []) == DecodeFrom(s, 2, copied) == copied;
  }
}
