/** The order of series indices: decimal digit strings with an optional fraction, compared without ever being
    converted to numbers. */
module SeriesIndex {
  import opened Wrappers
  import Decimal
  import Lex

  const MAX_LENGTH := 20

  /** What `split(".")` yields for a valid index: the digits before the point, and those after it, if there is one. */
  function PointAt(s: string): (k: nat)
    ensures k <= |s|
    ensures forall i :: 0 <= i < k ==> s[i] != '.'
    ensures k < |s| ==> s[k] == '.'
  {
    if s == "" || s[0] == '.' then 0 else 1 + PointAt(s[1..])
  }

  function Whole(s: string): string {
    s[..PointAt(s)]
  }

  function Fraction(s: string): Option<string> {
    if PointAt(s) < |s| then Some(s[PointAt(s) + 1..]) else None
  }

  /** One or more digits, then perhaps a point and one or more digits, in at most twenty characters. */
  predicate IsValid(s: string) {
    && |s| <= MAX_LENGTH
    && Whole(s) != "" && Decimal.AllDigits(Whole(s))
    && (Fraction(s).Some? ==> Fraction(s).value != "" && Decimal.AllDigits(Fraction(s).value))
  }

  /** Leading zeros go as long as a digit follows them. */
  function StripZeros(s: string): string {
    if |s| >= 2 && s[0] == '0' && Decimal.IsDigit(s[1]) then StripZeros(s[1..]) else s
  }

  function NormalizedIntegerSegment(s: string): string {
    var normalized := StripZeros(s);
    if normalized == "" then "0" else normalized
  }

  function Code(c: char): int {
    c as int
  }

  function CompareIntegerSegments(a: string, b: string): (r: int)
    ensures -1 <= r <= 1
  {
    var x, y := NormalizedIntegerSegment(a), NormalizedIntegerSegment(b);
    if |x| != |y| then if |x| < |y| then -1 else 1
    else if x == y then 0
    else if Lex.Compare(Code, x, y) < 0 then -1 else 1
  }

  function CompareSeriesIndices(a: string, b: string): (r: int)
    ensures -1 <= r <= 1
  {
    var whole := CompareIntegerSegments(Whole(a), Whole(b));
    if whole != 0 then whole
    else if Fraction(a).None? && Fraction(b).Some? then -1
    else if Fraction(a).Some? && Fraction(b).None? then 1
    else
      var fraction := if Fraction(a).Some? && Fraction(b).Some?
                      then CompareIntegerSegments(Fraction(a).value, Fraction(b).value) else 0;
      if fraction != 0 then fraction
      else if a == b then 0
      else if Lex.Compare(Code, a, b) < 0 then -1 else 1
  }

  // ----- Digit strings compare as the numbers they denote

  lemma {:induction false} StripZerosKeepsValue(s: string)
    requires Decimal.AllDigits(s)
    ensures Decimal.Value(StripZeros(s)) == Decimal.Value(s)
    ensures Decimal.AllDigits(StripZeros(s)) && (s != "" ==> StripZeros(s) != "")
    ensures |StripZeros(s)| > 1 ==> StripZeros(s)[0] != '0'
    decreases |s|
  {
    hide Decimal.Value;
    if |s| >= 2 && s[0] == '0' {
      Decimal.ValueWithoutZero(s);
      StripZerosKeepsValue(s[1..]);
    }
  }

  lemma {:induction false} LexOfLast(a: string, b: string)
    requires |a| == |b| && a != ""
    ensures var k := |a| - 1;
            Lex.Compare(Code, a, b) ==
            if Lex.Compare(Code, a[..k], b[..k]) != 0 then Lex.Compare(Code, a[..k], b[..k])
            else if a[k] < b[k] then -1 else if b[k] < a[k] then 1 else 0
    decreases |a|
  {
    var k := |a| - 1;
    if k == 0 {
      assert a[..0] == "" && b[..0] == "" && a[1..] == "" && b[1..] == "";
    } else {
      LexOfLast(a[1..], b[1..]);
      assert a[..k][1..] == a[1..][..k - 1] && b[..k][1..] == b[1..][..k - 1];
    }
  }

  lemma {:induction false} SameLengthByValue(a: string, b: string)
    requires |a| == |b| && Decimal.AllDigits(a) && Decimal.AllDigits(b)
    ensures Lex.Compare(Code, a, b) == Lex.Sign(Decimal.Value(a) - Decimal.Value(b))
    decreases |a|
  {
    if a != "" {
      LexOfLast(a, b);
      SameLengthByValue(a[..|a| - 1], b[..|a| - 1]);
    }
  }

  lemma {:induction false} LongerIsGreater(a: string, b: string)
    requires |a| < |b| && Decimal.AllDigits(a) && Decimal.AllDigits(b) && b[0] != '0'
    ensures Decimal.Value(a) < Decimal.Value(b)
    decreases |b|
  {
    var b' := b[..|b| - 1];
    if a == "" {
      if |b| > 1 {
        LongerIsGreater("", b');
      } else {
        assert b' == "";
      }
    } else {
      LongerIsGreater(a[..|a| - 1], b');
    }
  }

  /** Leading zeros or not, digit strings are compared as the numbers they denote, of any size. */
  lemma SegmentsCompareByValue(a: string, b: string)
    requires a != "" && b != "" && Decimal.AllDigits(a) && Decimal.AllDigits(b)
    ensures CompareIntegerSegments(a, b) == Lex.Sign(Decimal.Value(a) - Decimal.Value(b))
  {
    hide Decimal.Value, Lex.Compare;
    var x, y := StripZeros(a), StripZeros(b);
    StripZerosKeepsValue(a);
    StripZerosKeepsValue(b);
    if |x| < |y| {
      LongerIsGreater(x, y);
    } else if |x| > |y| {
      LongerIsGreater(y, x);
    } else {
      SameLengthByValue(x, y);
      Lex.ZeroIffEqual(Code, x, y);
    }
  }

  // ----- A strict total order

  /** The fraction's place: before every fraction when there is none, then by its digits read as a number. */
  function FractionRank(s: string): int {
    if Fraction(s).Some? then Decimal.Value(Fraction(s).value) else -1
  }

  /** What the comparison amounts to: the whole part by value, the fraction by rank, and the text itself last. */
  lemma CompareByKeys(a: string, b: string)
    requires IsValid(a) && IsValid(b)
    ensures CompareSeriesIndices(a, b) ==
            if Decimal.Value(Whole(a)) != Decimal.Value(Whole(b)) then Lex.Sign(Decimal.Value(Whole(a)) - Decimal.Value(Whole(b)))
            else if FractionRank(a) != FractionRank(b) then Lex.Sign(FractionRank(a) - FractionRank(b))
            else Lex.Compare(Code, a, b)
  {
    hide Decimal.Value, Lex.Compare, CompareIntegerSegments, Whole, Fraction;
    SegmentsCompareByValue(Whole(a), Whole(b));
    if Fraction(a).Some? && Fraction(b).Some? {
      SegmentsCompareByValue(Fraction(a).value, Fraction(b).value);
    }
    Lex.ZeroIffEqual(Code, a, b);
  }

  /** Zero only for identical indices, opposite signs when swapped, and transitive. */
  lemma SeriesIndicesAreTotallyOrdered(a: string, b: string, c: string)
    requires IsValid(a) && IsValid(b) && IsValid(c)
    ensures CompareSeriesIndices(a, b) == 0 <==> a == b
    ensures CompareSeriesIndices(a, b) == -CompareSeriesIndices(b, a)
    ensures CompareSeriesIndices(a, b) < 0 && CompareSeriesIndices(b, c) < 0 ==> CompareSeriesIndices(a, c) < 0
  {
    hide CompareSeriesIndices, IsValid, Decimal.Value, Lex.Compare, Whole, FractionRank;
    CompareByKeys(a, b);
    CompareByKeys(b, a);
    CompareByKeys(b, c);
    CompareByKeys(a, c);
    Lex.ZeroIffEqual(Code, a, b);
    Lex.Antisymmetric(Code, a, b);
    if Lex.Compare(Code, a, b) <= 0 && Lex.Compare(Code, b, c) <= 0 {
      Lex.Transitive(Code, a, b, c);
    }
  }

  // ----- By the texts of the two parts

  predicate IsNumber(s: string) {
    s != "" && Decimal.AllDigits(s)
  }

  /** A whole part, and a fraction after a point if there is one. */
  function Spelled(whole: string, fraction: Option<string>): string {
    match fraction
    case None => whole
    case Some(digits) => whole + "." + digits
  }

  lemma {:induction false} PointAfter(whole: string, rest: string)
    requires Decimal.AllDigits(whole) && (rest == "" || rest[0] == '.')
    ensures PointAt(whole + rest) == |whole|
    decreases |whole|
  {
    if whole == "" {
      assert whole + rest == rest;
    } else {
      assert (whole + rest)[1..] == whole[1..] + rest;
      PointAfter(whole[1..], rest);
    }
  }

  lemma PartsOf(whole: string, fraction: Option<string>)
    requires IsNumber(whole) && (fraction.Some? ==> IsNumber(fraction.value))
    ensures Whole(Spelled(whole, fraction)) == whole && Fraction(Spelled(whole, fraction)) == fraction
  {
    hide PointAt;
    match fraction
    case None =>
      assert whole + "" == whole;
      PointAfter(whole, "");
    case Some(digits) =>
      assert whole + "." + digits == whole + ("." + digits);
      PointAfter(whole, "." + digits);
  }

  /** Valid indices are digits, or digits with a point and further digits, twenty characters at most. */
  lemma ValidIff(s: string)
    ensures IsValid(s) <==>
            |s| <= 20 && exists whole: string, fraction: Option<string> :: IsNumber(whole) && (fraction.Some? ==> IsNumber(fraction.value)) && s == Spelled(whole, fraction)
  {
    hide PointAt;
    if IsValid(s) {
      SplitAtPoint(s);
      assert s == Spelled(Whole(s), Fraction(s));
    }
    forall whole: string, fraction: Option<string> | IsNumber(whole) && (fraction.Some? ==> IsNumber(fraction.value)) && s == Spelled(whole, fraction)
      ensures Whole(s) == whole && Fraction(s) == fraction
    {
      PartsOf(whole, fraction);
    }
  }

  lemma SplitAtPoint(s: string)
    ensures s == Spelled(Whole(s), Fraction(s))
  {
    var k := PointAt(s);
    if k < |s| {
      assert s == s[..k] + "." + s[k + 1..];
    }
  }

  /** The order of two indices: by the number that the whole part is; then one without a fraction before those with one; then
      by the number that the digits of the fraction are, so that 5.2 comes before 5.10; then by the text. */
  lemma OrderOfIndices(whole: string, fraction: Option<string>, whole': string, fraction': Option<string>)
    requires IsNumber(whole) && (fraction.Some? ==> IsNumber(fraction.value))
    requires IsNumber(whole') && (fraction'.Some? ==> IsNumber(fraction'.value))
    ensures var a, b := Spelled(whole, fraction), Spelled(whole', fraction');
            var r, v, v' := CompareSeriesIndices(a, b), Decimal.Value(whole), Decimal.Value(whole');
            r == if v != v' then if v < v' then -1 else 1
                 else if fraction.None? && fraction'.Some? then -1
                 else if fraction.Some? && fraction'.None? then 1
                 else if fraction.Some? && Decimal.Value(fraction.value) != Decimal.Value(fraction'.value)
                 then if Decimal.Value(fraction.value) < Decimal.Value(fraction'.value) then -1 else 1
                 else Lex.Compare(Code, a, b)
  {
    hide Decimal.Value, Lex.Compare, CompareIntegerSegments, Whole, Fraction, Spelled;
    PartsOf(whole, fraction);
    PartsOf(whole', fraction');
    SegmentsCompareByValue(whole, whole');
    if fraction.Some? && fraction'.Some? {
      SegmentsCompareByValue(fraction.value, fraction'.value);
    }
    Lex.ZeroIffEqual(Code, Spelled(whole, fraction), Spelled(whole', fraction'));
  }

  /** Equal numbers are told apart by their texts, at the first character that differs. */
  lemma EqualNumbersByText(a: string, b: string, k: nat)
    requires Lex.FirstDifference(a, b, k)
    ensures Lex.Compare(Code, a, b) ==
            if k == |a| && k == |b| then 0 else if k == |a| then -1 else if k == |b| then 1 else if a[k] < b[k] then -1 else 1
  {
    Lex.ComparedThere(Code, a, b, k);
  }

  lemma FiveTwoIsBeforeFiveTen()
    ensures CompareSeriesIndices("5.2", "5.10") == -1
  {
    hide Decimal.Value, CompareSeriesIndices;
    assert "5" + "." + "2" == "5.2" && "5" + "." + "10" == "5.10";
    OrderOfIndices("5", Some("2"), "5", Some("10"));
    SmallValues();
  }

  lemma SmallValues()
    ensures Decimal.Value("2") == 2 && Decimal.Value("10") == 10
  {
    assert "2"[..0] == "" && "10"[..1] == "1" && "1"[..0] == "";
  }
}
