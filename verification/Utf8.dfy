/** UTF-8, as RFC 3629 lays its bits out: the encoding of texts, and a decoder for it. */
module Utf8 {
  import opened Wrappers
  import opened Bytes
  import opened Utf16

  /** A code point that is no surrogate. */
  type Scalar = c: int | 0 <= c < 0x110000 && !(0xD800 <= c < 0xE000)

  /** Encoders write the replacement character for an unpaired surrogate. */
  function ToScalar(point: nat): Scalar
    requires point < 0x110000
  {
    if 0xD800 <= point < 0xE000 then 0xFFFD else point
  }

  function Encode(c: Scalar): seq<Byte> {
    if c < 0x80 then [c]
    else if c < 0x800 then [0xC0 + c / 0x40, 0x80 + c % 0x40]
    else if c < 0x10000 then [0xE0 + c / 0x1000, 0x80 + c / 0x40 % 0x40, 0x80 + c % 0x40]
    else [0xF0 + c / 0x40000, 0x80 + c / 0x1000 % 0x40, 0x80 + c / 0x40 % 0x40, 0x80 + c % 0x40]
  }


  /** What a text is on disk. */
  function Utf8Bytes(s: Text): seq<Byte>
    decreases |s|
  {
    if s == [] then [] else
    PointIsInRange(s);
    Encode(ToScalar(CodePoint(s))) + Utf8Bytes(s[PointSize(s)..])
  }

  // ----- Decoding

  predicate IsContinuation(b: Byte) {
    0x80 <= b < 0xC0
  }

  /** How many bytes the first one announces. */
  function Announced(b: Byte): nat {
    if b < 0x80 then 1 else if b < 0xC0 then 0 else if b < 0xE0 then 2 else if b < 0xF0 then 3 else if b < 0xF8 then 4 else 0
  }

  /** What a byte adds: its low bits. */
  function Payload(b: Byte, range: nat): nat
    requires range > 0
  {
    b % range
  }

  function Number(s: seq<Byte>): nat
    requires s != [] && 1 <= Announced(s[0]) <= |s|
  {
    match Announced(s[0])
    case 1 => s[0]
    case 2 => 0x40 * Payload(s[0], 0x20) + Payload(s[1], 0x40)
    case 3 => 0x1000 * Payload(s[0], 0x10) + 0x40 * Payload(s[1], 0x40) + Payload(s[2], 0x40)
    case _ => 0x40000 * Payload(s[0], 0x8) + 0x1000 * Payload(s[1], 0x40) + 0x40 * Payload(s[2], 0x40) + Payload(s[3], 0x40)
  }

  function Least(n: nat): nat {
    if n <= 1 then 0 else if n == 2 then 0x80 else if n == 3 then 0x800 else 0x10000
  }

  /** The first code point, and how many bytes it takes; none for stray, missing and surplus bytes, and for surrogates. */
  function DecodeFirst(s: seq<Byte>): (first: Option<(Scalar, nat)>)
    requires s != []
    ensures first.Some? ==> 1 <= first.value.1 <= |s|
  {
    var n := Announced(s[0]);
    if n == 0 || n > |s| || !(forall k :: 1 <= k < n ==> IsContinuation(s[k])) then None else
    var c := Number(s);
    if c < Least(n) || c >= 0x110000 || 0xD800 <= c < 0xE000 then None else Some((c, n))
  }

  function Decode(s: seq<Byte>): Option<seq<Scalar>> {
    if s == [] then Some([]) else
    match DecodeFirst(s)
    case None => None
    case Some(first) =>
      match Decode(s[first.1..])
      case None => None
      case Some(rest) => Some([first.0] + rest)
  }

  lemma FirstIsDecoded(c: Scalar, rest: seq<Byte>)
    ensures DecodeFirst(Encode(c) + rest) == Some((c, |Encode(c)|))
  {
    if c < 0x80 {
      var s := Encode(c) + rest;
      assert s[0] == c;
    } else if c < 0x800 {
      TwoAreDecoded(c, Encode(c) + rest);
    } else if c < 0x10000 {
      ThreeAreDecoded(c, Encode(c) + rest);
    } else {
      FourAreDecoded(c, Encode(c) + rest);
    }
  }

  lemma TwoAreDecoded(c: Scalar, s: seq<Byte>)
    requires 0x80 <= c < 0x800 && |s| >= 2 && s[0] == 0xC0 + c / 0x40 && s[1] == 0x80 + c % 0x40
    ensures DecodeFirst(s) == Some((c, 2))
  {
  }

  lemma ThreeAreDecoded(c: Scalar, s: seq<Byte>)
    requires 0x800 <= c < 0x10000 && |s| >= 3
    requires s[0] == 0xE0 + c / 0x1000 && s[1] == 0x80 + c / 0x40 % 0x40 && s[2] == 0x80 + c % 0x40
    ensures DecodeFirst(s) == Some((c, 3))
  {
    hide Payload;
    ThreeParts(c);
    LowBits(c / 0x1000, 0xE0, 0x10);
    LowBits(c / 0x40 % 0x40, 0x80, 0x40);
    LowBits(c % 0x40, 0x80, 0x40);
  }

  lemma FourAreDecoded(c: Scalar, s: seq<Byte>)
    requires 0x10000 <= c && |s| >= 4
    requires s[0] == 0xF0 + c / 0x40000 && s[1] == 0x80 + c / 0x1000 % 0x40 && s[2] == 0x80 + c / 0x40 % 0x40 && s[3] == 0x80 + c % 0x40
    ensures DecodeFirst(s) == Some((c, 4))
  {
    hide Payload;
    FourParts(c);
    LowBits(c / 0x40000, 0xF0, 0x8);
    LowBits(c / 0x1000 % 0x40, 0x80, 0x40);
    LowBits(c / 0x40 % 0x40, 0x80, 0x40);
    LowBits(c % 0x40, 0x80, 0x40);
  }

  lemma LowBits(v: nat, mark: nat, range: nat)
    requires range in [0x8, 0x10, 0x40] && mark % range == 0 && v < range && mark + v < 256
    ensures Payload(mark + v, range) == v
  {
  }

  lemma ThreeParts(c: nat)
    ensures c == 0x1000 * (c / 0x1000) + 0x40 * (c / 0x40 % 0x40) + c % 0x40
    ensures c < 0x10000 ==> c / 0x1000 < 0x10
  {
    assert c / 0x40 / 0x40 == c / 0x1000;
  }

  lemma FourParts(c: nat)
    ensures c == 0x40000 * (c / 0x40000) + 0x1000 * (c / 0x1000 % 0x40) + 0x40 * (c / 0x40 % 0x40) + c % 0x40
    ensures c < 0x110000 ==> c / 0x40000 < 5
  {
    ThreeParts(c);
    assert c / 0x1000 / 0x40 == c / 0x40000;
  }

  function Scalars(s: Text): seq<Scalar>
    decreases |s|
  {
    if s == [] then [] else
    PointIsInRange(s);
    [ToScalar(CodePoint(s))] + Scalars(s[PointSize(s)..])
  }

  /** Decoding the bytes of a text gives its code points back, those of unpaired surrogates replaced. */
  lemma {:induction false} DecodingInvertsEncoding(s: Text)
    ensures Decode(Utf8Bytes(s)) == Some(Scalars(s))
    decreases |s|
  {
    hide Encode, DecodeFirst, CodePoint;
    if s != [] {
      PointIsInRange(s);
      var c, rest := ToScalar(CodePoint(s)), s[PointSize(s)..];
      DecodingInvertsEncoding(rest);
      FirstIsDecoded(c, Utf8Bytes(rest));
      assert Utf8Bytes(s)[|Encode(c)|..] == Utf8Bytes(rest);
    }
  }
}
