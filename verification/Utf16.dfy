/** Texts as the original program holds them: UTF-16 units, where surrogates need not be paired. */
module Utf16 {

  type Unit = u: int | 0 <= u < 0x10000
  type Text = seq<Unit>

  function Code(u: Unit): int {
    u
  }

  // ----- Code points

  predicate IsHigh(u: Unit) {
    0xD800 <= u <= 0xDBFF
  }

  predicate IsLow(u: Unit) {
    0xDC00 <= u <= 0xDFFF
  }

  /** How many units the first code point takes; an unpaired surrogate stands for itself. */
  function PointSize(s: Text): (n: nat)
    requires s != []
    ensures 1 <= n <= |s|
  {
    if |s| >= 2 && IsHigh(s[0]) && IsLow(s[1]) then 2 else 1
  }

  function CodePoint(s: Text): nat
    requires s != []
  {
    if PointSize(s) == 2 then 0x10000 + (s[0] as int - 0xD800) * 0x400 + (s[1] as int - 0xDC00) else s[0]
  }

  /** The code points of a text. */
  function Points(s: Text): seq<nat> {
    if s == [] then [] else [CodePoint(s)] + Points(s[PointSize(s)..])
  }

  /** A code point as units: itself, or a surrogate pair. */
  function UnitsOf(point: nat): (units: Text)
    requires point < 0x110000
  {
    if point < 0x10000 then [point]
    else [0xD800 + (point - 0x10000) / 0x400, 0xDC00 + (point - 0x10000) % 0x400]
  }

  lemma PointIsInRange(s: Text)
    requires s != []
    ensures CodePoint(s) < 0x110000 && UnitsOf(CodePoint(s)) == s[..PointSize(s)]
    ensures PointSize(s) == 2 <==> CodePoint(s) >= 0x10000
  {
    if PointSize(s) == 2 {
      var x: int, y: int := s[0] - 0xD800, s[1] - 0xDC00;
      assert (x * 0x400 + y) / 0x400 == x && (x * 0x400 + y) % 0x400 == y;
    }
  }

  function UnitsOfAll(points: seq<nat>): Text
    requires forall k :: 0 <= k < |points| ==> points[k] < 0x110000
  {
    if points == [] then [] else UnitsOf(points[0]) + UnitsOfAll(points[1..])
  }

  /** The code points of a text spell it again. */
  lemma {:induction false} PointsSpellText(s: Text)
    ensures forall k :: 0 <= k < |Points(s)| ==> Points(s)[k] < 0x110000
    ensures UnitsOfAll(Points(s)) == s
    decreases |s|
  {
    hide UnitsOf, CodePoint;
    if s != [] {
      PointIsInRange(s);
      PointsSpellText(s[PointSize(s)..]);
    }
  }
}
