/** Text records end with trailing entries that are cut off before decompression. */
module TrailingEntries {
  import opened Bytes

  function Tail(s: seq<Byte>, n: nat): seq<Byte> {
    if n < |s| then s[|s| - n..] else s
  }

  /** A value in groups of seven bits, restarted at each byte with its high bit set. */
  function Quantity(value: nat, s: seq<Byte>): nat
    decreases s
  {
    if s == [] then value
    else Quantity((if s[0] >= 128 then 0 else value) * 128 + s[0] % 128, s[1..])
  }

  lemma {:induction false} QuantityAppend(value: nat, a: seq<Byte>, b: seq<Byte>)
    ensures Quantity(value, a + b) == Quantity(Quantity(value, a), b)
    decreases a
  {
    if a == [] {
      assert a + b == b;
    } else {
      assert (a + b)[1..] == a[1..] + b;
      QuantityAppend((if a[0] >= 128 then 0 else value) * 128 + a[0] % 128, a[1..], b);
    }
  }

  method GetVarLenFromEnd(byteArray: seq<Byte>) returns (value: nat)
    ensures value == Quantity(0, Tail(byteArray, 4))
  {
    value := 0;
    var last := Tail(byteArray, 4);
    for i := 0 to |last|
      invariant value == Quantity(0, last[..i])
    {
      ghost var before := value;
      var byte := last[i];
      if byte >= 128 {
        value := 0;
      }
      value := value * 128 + byte % 128;
      QuantityAppend(0, last[..i], [byte]);
      assert last[..i + 1] == last[..i] + [byte];
      assert Quantity(before, [byte]) == Quantity(value, []);
    }
    assert last[..|last|] == last;
  }

  /** `subarray(0, -length)`: minus zero is zero, so nothing is left when the length is zero. */
  function DropLast(s: seq<Byte>, length: nat): seq<Byte> {
    if length == 0 || length > |s| then [] else s[..|s| - length]
  }

  function RemoveEntries(s: seq<Byte>, entries: nat): seq<Byte>
    decreases entries
  {
    if entries == 0 then s else RemoveEntries(DropLast(s, Quantity(0, Tail(s, 4))), entries - 1)
  }

  function RemoveMultibyte(s: seq<Byte>): seq<Byte> {
    DropLast(s, (if s == [] then 0 else s[|s| - 1] % 4) + 1)
  }

  function RemoveTrailing(s: seq<Byte>, multibyte: bool, entries: nat): seq<Byte> {
    var rest := RemoveEntries(s, entries);
    if multibyte then RemoveMultibyte(rest) else rest
  }

  method RemoveTrailingEntries(data: seq<Byte>, multibyte: bool, numTrailingEntries: nat) returns (bytes: seq<Byte>)
    ensures bytes == RemoveTrailing(data, multibyte, numTrailingEntries)
  {
    bytes := data;
    for i := 0 to numTrailingEntries
      invariant RemoveEntries(bytes, numTrailingEntries - i) == RemoveEntries(data, numTrailingEntries)
    {
      var length := GetVarLenFromEnd(bytes);
      bytes := DropLast(bytes, length);
    }
    if multibyte {
      var length := (if bytes == [] then 0 else bytes[|bytes| - 1] % 4) + 1;
      bytes := DropLast(bytes, length);
    }
  }

  /** One removal leaves something if and only if the size read is neither zero nor as much as there is; and then it
      leaves everything but its last bytes, as many as the size says. */
  lemma RemovalLeavesSomethingIff(s: seq<Byte>)
    ensures var size := Quantity(0, Tail(s, 4));
            && (RemoveEntries(s, 1) != [] <==> 1 <= size < |s|)
            && (1 <= size <= |s| ==> RemoveEntries(s, 1) == s[..|s| - size])
  {
    hide Quantity, Tail;
    assert RemoveEntries(s, 1) == RemoveEntries(DropLast(s, Quantity(0, Tail(s, 4))), 0);
  }

  /** A size of zero takes the whole record, and not nothing. */
  lemma ZeroSizeEmptiesTheRecord()
    ensures var record: seq<Byte> := [84, 101, 120, 116, 0x80];
            Quantity(0, Tail(record, 4)) == 0 && RemoveEntries(record, 1) == []
  {
    var record: seq<Byte> := [84, 101, 120, 116, 0x80];
    var last := Tail(record, 4);
    assert last == [101, 120, 116] + [0x80];
    QuantityAppend(0, [101, 120, 116], [0x80]);
    RemovalLeavesSomethingIff(record);
  }

  // ----- Appending, as the format prescribes

  /** A number in `n` groups of seven bits, the first one marked by its high bit. */
  function Groups(v: nat, n: nat): (s: seq<Byte>)
    ensures |s| == n
  {
    if n == 0 then [] else Groups(v / 128, n - 1) + [v % 128 + if n == 1 then 128 else 0]
  }

  function Pow128(n: nat): nat {
    if n == 0 then 1 else 128 * Pow128(n - 1)
  }

  lemma {:induction false} QuantityOfGroups(v: nat, n: nat, value: nat)
    requires 1 <= n && v < Pow128(n)
    ensures Quantity(value, Groups(v, n)) == v
  {
    var last := v % 128 + if n == 1 then 128 else 0;
    QuantityAppend(value, Groups(v / 128, n - 1), [last]);
    assert Groups(v, n) == Groups(v / 128, n - 1) + [last];
    if n == 1 {
      assert Groups(v / 128, 0) == [];
      assert Pow128(1) == 128;
      assert Quantity(value, [last]) == Quantity(0 * 128 + last % 128, []);
    } else {
      assert v / 128 < Pow128(n - 1);
      QuantityOfGroups(v / 128, n - 1, value);
      assert Quantity(v / 128, [last]) == Quantity(v / 128 * 128 + last % 128, []);
    }
  }

  /** A trailing entry: data, then its whole size in one to four groups. */
  datatype Trailer = Trailer(data: seq<Byte>, groups: nat)

  function Size(t: Trailer): nat {
    |t.data| + t.groups
  }

  predicate ValidTrailer(t: Trailer) {
    1 <= t.groups <= 4 && Size(t) < Pow128(t.groups)
  }

  function TrailerBytes(t: Trailer): (s: seq<Byte>)
    ensures |s| == Size(t)
  {
    t.data + Groups(Size(t), t.groups)
  }

  function AppendTrailers(s: seq<Byte>, ts: seq<Trailer>): seq<Byte>
    decreases ts
  {
    if ts == [] then s else AppendTrailers(s + TrailerBytes(ts[0]), ts[1..])
  }

  /** The size is read off whatever stands before it. */
  lemma SizeIsRead(s: seq<Byte>, t: Trailer)
    requires ValidTrailer(t)
    ensures Quantity(0, Tail(s + TrailerBytes(t), 4)) == Size(t)
  {
    var whole := s + TrailerBytes(t);
    var groups := Groups(Size(t), t.groups);
    var before := s + t.data;
    assert whole == before + groups;
    var last := Tail(whole, 4);
    var k := |last| - t.groups;
    assert last == last[..k] + groups;
    QuantityAppend(0, last[..k], groups);
    QuantityOfGroups(Size(t), t.groups, Quantity(0, last[..k]));
  }

  lemma RemoveAppended(s: seq<Byte>, t: Trailer)
    requires ValidTrailer(t)
    ensures DropLast(s + TrailerBytes(t), Quantity(0, Tail(s + TrailerBytes(t), 4))) == s
  {
    hide Quantity, Tail, TrailerBytes;
    SizeIsRead(s, t);
  }

  lemma {:induction false} AppendLast(s: seq<Byte>, ts: seq<Trailer>)
    requires ts != []
    ensures AppendTrailers(s, ts) == AppendTrailers(s, ts[..|ts| - 1]) + TrailerBytes(ts[|ts| - 1])
    decreases ts
  {
    if |ts| > 1 {
      AppendLast(s + TrailerBytes(ts[0]), ts[1..]);
      assert ts[..|ts| - 1][1..] == ts[1..][..|ts| - 2];
    } else {
      assert ts[..0] == [] && ts[1..] == [];
    }
  }

  lemma {:induction false} RemoveInvertsAppend(s: seq<Byte>, ts: seq<Trailer>)
    requires forall k :: 0 <= k < |ts| ==> ValidTrailer(ts[k])
    ensures RemoveEntries(AppendTrailers(s, ts), |ts|) == s
    decreases |ts|
  {
    hide Quantity, Tail, ValidTrailer, TrailerBytes;
    if ts != [] {
      AppendLast(s, ts);
      RemoveAppended(AppendTrailers(s, ts[..|ts| - 1]), ts[|ts| - 1]);
      RemoveInvertsAppend(s, ts[..|ts| - 1]);
    }
  }

  /** The bytes of a character that crosses the record boundary; the last one tells how many there are. */
  predicate MultibyteTail(tail: seq<Byte>) {
    1 <= |tail| <= 4 && tail[|tail| - 1] % 4 == |tail| - 1
  }

  /** Whatever was appended in the prescribed form is removed, and nothing else. */
  lemma TrailingRoundTrip(text: seq<Byte>, tail: seq<Byte>, ts: seq<Trailer>)
    requires forall k :: 0 <= k < |ts| ==> ValidTrailer(ts[k])
    ensures RemoveTrailing(AppendTrailers(text, ts), false, |ts|) == text
    ensures MultibyteTail(tail) ==> RemoveTrailing(AppendTrailers(text + tail, ts), true, |ts|) == text
  {
    hide RemoveEntries, AppendTrailers, ValidTrailer;
    RemoveInvertsAppend(text, ts);
    RemoveInvertsAppend(text + tail, ts);
  }

  // ----- How many entries the flags announce

  function BitsSet(flags: nat): nat {
    if flags == 0 then 0 else flags % 2 + BitsSet(flags / 2)
  }

  method CountBitsSet(flags: nat) returns (count: nat)
    ensures count == BitsSet(flags)
  {
    count := 0;
    var x := flags;
    while x > 0
      invariant count + BitsSet(x) == BitsSet(flags)
    {
      if x % 2 == 1 {
        count := count + 1;
      }
      x := x / 2;
    }
  }

  /** The flag word of a list of announced kinds of entry. */
  function FlagWord(kinds: seq<bool>): nat {
    if kinds == [] then 0 else (if kinds[0] then 1 else 0) + 2 * FlagWord(kinds[1..])
  }

  function Announced(kinds: seq<bool>): nat {
    if kinds == [] then 0 else (if kinds[0] then 1 else 0) + Announced(kinds[1..])
  }

  lemma {:induction false} FlagsAnnounceEntries(kinds: seq<bool>)
    ensures BitsSet(FlagWord(kinds)) == Announced(kinds)
  {
    if kinds != [] {
      FlagsAnnounceEntries(kinds[1..]);
      var rest := FlagWord(kinds[1..]);
      assert FlagWord(kinds) / 2 == rest && FlagWord(kinds) % 2 == if kinds[0] then 1 else 0;
    }
  }
}
