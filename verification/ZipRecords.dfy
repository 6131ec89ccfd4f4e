/** What the index holds for any directory, written by whom it may be: which records are passed over, and which spoil it. */
module ZipRecords {
  import opened Wrappers
  import opened Bytes
  import opened ZipReader
  import opened ZipWriter
  import opened ZipRoundTrip

  // ----- Directories

  /** A whole directory record. */
  predicate IsRecord(r: seq<Byte>) {
    |r| >= 46 && Field(r, 0, 4) == CDFH_SIG && |r| == RecordLength(r, 0)
  }

  /** A record that says that it is longer than what is left. */
  predicate IsCutOff(r: seq<Byte>) {
    |r| >= 46 && Field(r, 0, 4) == CDFH_SIG && |r| < RecordLength(r, 0)
  }

  predicate AreRecords(records: seq<seq<Byte>>) {
    forall k :: 0 <= k < |records| ==> IsRecord(records[k])
  }

  function EntriesOf(records: seq<seq<Byte>>, file: seq<Byte>): seq<Entry>
    requires AreRecords(records)
  {
    if records == [] then [] else EntryOf(records[0], file) + EntriesOf(records[1..], file)
  }

  /** Every directory is some whole records and then either something that is no record, or a record that is cut off. */
  lemma {:induction false} EveryDirectorySplits(dir: seq<Byte>) returns (records: seq<seq<Byte>>, trailer: seq<Byte>)
    ensures AreRecords(records)
    ensures dir == Concat(records) + trailer
    ensures Stops(trailer) != IsCutOff(trailer)
  {
    hide Field;
    if Stops(dir) || IsCutOff(dir) {
      records, trailer := [], dir;
    } else {
      var record := dir[..RecordLength(dir, 0)];
      RecordIsWhole(dir, 0);
      RecordHeader(dir, 0, record);
      var others;
      others, trailer := EveryDirectorySplits(dir[|record|..]);
      records := [record] + others;
      assert records[1..] == others;
      assert dir == record + dir[|record|..];
    }
  }

  /** The scan gives the entries of all whole records, and nothing at all when the last one is cut off. */
  lemma {:induction false} RecordsAreScanned(records: seq<seq<Byte>>, trailer: seq<Byte>, dir: seq<Byte>, pos: nat, file: seq<Byte>)
    requires AreRecords(records)
    requires pos <= |dir| && dir[pos..] == Concat(records) + trailer
    ensures Stops(trailer) ==> Scan(dir, pos, file) == Some(EntriesOf(records, file))
    ensures IsCutOff(trailer) ==> Scan(dir, pos, file) == None
    decreases |records|
  {
    hide Field, EntryOf;
    if records == [] {
      assert dir[pos..] == trailer;
      if Stops(trailer) {
        NothingToScan(dir, pos, file);
      } else if IsCutOff(trailer) {
        RecordHeader(dir, pos, trailer);
      }
    } else {
      var others := Concat(records[1..]) + trailer;
      assert dir[pos..] == records[0] + others;
      ScanRecord(dir, pos, records[0], others, file);
      RecordsAreScanned(records[1..], trailer, dir, pos + |records[0]|, file);
    }
  }

  // ----- Records

  /** A number at a place, byte by byte. */
  function Number16(s: seq<Byte>, at: nat): nat
    requires at + 2 <= |s|
  {
    var low, high: nat := s[at], s[at + 1];
    low + 256 * high
  }

  predicate IsLocalHeader(file: seq<Byte>, at: nat) {
    && at + 30 <= |file| && file[at..at + 4] == [0x50, 0x4B, 0x03, 0x04]
    && at + 30 + Number16(file, at + 26) + Number16(file, at + 28) <= |file|
  }

  lemma TwoBytes(s: seq<Byte>, at: nat)
    requires at + 2 <= |s|
    ensures Field(s, at, 2) == Number16(s, at)
  {
    var two := s[at..at + 2];
    assert two == [s[at], s[at + 1]];
    assert two[1..] == [s[at + 1]];
    assert two[1..][1..] == [];
    assert Le(two[1..]) == s[at + 1] + 256 * Le(two[1..][1..]);
  }

  lemma {:induction false} SameNumberSameBytes(s: seq<Byte>, t: seq<Byte>)
    requires |s| == |t| && Le(s) == Le(t)
    ensures s == t
  {
    if s != [] {
      SameNumberSameBytes(s[1..], t[1..]);
      assert s == [s[0]] + s[1..] && t == [t[0]] + t[1..];
    }
  }

  /** The signature of a local header, as the bytes P, K, 3, 4. */
  lemma LocalSignature(s: seq<Byte>, at: nat)
    requires at + 4 <= |s|
    ensures Field(s, at, 4) == LFH_SIG <==> s[at..at + 4] == [0x50, 0x4B, 0x03, 0x04]
  {
    var signature: seq<Byte> := [0x50, 0x4B, 0x03, 0x04];
    FourDigits(signature);
    if Field(s, at, 4) == LFH_SIG {
      SameNumberSameBytes(s[at..at + 4], signature);
    }
  }

  lemma FourDigits(four: seq<Byte>)
    requires |four| == 4
    ensures var a: nat, b: nat, c: nat, d: nat := four[0], four[1], four[2], four[3];
            Le(four) == a + 256 * (b + 256 * (c + 256 * d))
  {
    var a: nat, b: nat, c: nat, d: nat := four[0], four[1], four[2], four[3];
    assert four[1..][1..][1..][1..] == [];
    assert Le(four[1..][1..][1..]) == d;
    assert Le(four[1..][1..]) == c + 256 * d;
    assert Le(four[1..]) == b + 256 * (c + 256 * d);
  }

  /** The data of a member starts behind its local header, if there is one. */
  lemma DataStartIs(file: seq<Byte>, at: nat)
    requires IsSafe(|file|)
    ensures DataStart(file, at) ==
            if IsLocalHeader(file, at) then Some(at + 30 + Number16(file, at + 26) + Number16(file, at + 28)) else None
  {
    hide Field, Le;
    if at + 30 <= |file| {
      SubField(file, at, 30, 0, 4);
      SubField(file, at, 30, 26, 2);
      SubField(file, at, 30, 28, 2);
      LocalSignature(file, at);
      TwoBytes(file, at + 26);
      TwoBytes(file, at + 28);
    }
  }

  /** One when a field is in the Zip64 extra. */
  function Moved(raw: nat): nat {
    if raw == UINT32_MAX then 1 else 0
  }

  predicate IsBeyondSafe(zip64: seq<Byte>, k: nat) {
    8 * k + 8 <= |zip64| && Field(zip64, 8 * k, 8) >= 0x20_0000_0000_0000
  }

  /** The fields of a record are lost if and only if some are moved to a Zip64 extra that is missing, that is too short for
      them, or that holds a number beyond the safe ones for one of them. */
  lemma FieldsAreLostIff(rawCompressed: nat, rawUncompressed: nat, rawOffset: nat, extra: seq<Byte>)
    ensures var moved, zip64 := Moved(rawUncompressed) + Moved(rawCompressed) + Moved(rawOffset), Zip64Extra(extra, 0);
            Zip64Fields(rawCompressed, rawUncompressed, rawOffset, extra) == None <==>
              moved > 0 &&
              (zip64 == None || |zip64.value| < 8 * moved || exists k :: 0 <= k < moved && IsBeyondSafe(zip64.value, k))
  {
    hide Field, Zip64Extra;
    if Zip64Extra(extra, 0).Some? {
      var zip64 := Zip64Extra(extra, 0).value;
      assert |zip64| >= 8 ==> IsBeyondSafe(zip64, 0) == (SafeField64(zip64, 0) == None);
      assert |zip64| >= 16 ==> IsBeyondSafe(zip64, 1) == (SafeField64(zip64, 8) == None);
      assert |zip64| >= 24 ==> IsBeyondSafe(zip64, 2) == (SafeField64(zip64, 16) == None);
    }
  }

  /** A field that is whole, and has the id looked for. */
  predicate IsZip64Field(s: seq<Byte>) {
    |s| >= 4 && Number16(s, 0) == 1 && 4 + Number16(s, 2) <= |s|
  }

  /** What the search cannot get past: not enough bytes for a field, or for the data it announces. */
  predicate EndsFields(s: seq<Byte>) {
    |s| < 4 || 4 + Number16(s, 2) > |s|
  }

  /** Every extra is some other fields, and then a Zip64 field or the end of what can be read. */
  lemma {:induction false} EveryExtraSplits(extra: seq<Byte>) returns (before: seq<ExtraField>, rest: seq<Byte>)
    ensures forall f <- before :: IsExtraField(f)
    ensures extra == ExtraBytes(before) + rest
    ensures IsZip64Field(rest) != EndsFields(rest)
  {
    hide Field, Le, LeBytes;
    if IsZip64Field(extra) || EndsFields(extra) {
      before, rest := [], extra;
    } else {
      var length := Number16(extra, 2);
      var field := ExtraField(Number16(extra, 0), extra[4..4 + length]);
      BytesOfNumber(extra, 0);
      BytesOfNumber(extra, 2);
      var others;
      others, rest := EveryExtraSplits(extra[4 + length..]);
      before := [field] + others;
      assert before[1..] == others;
      assert extra == extra[0..2] + extra[2..4] + extra[4..4 + length] + extra[4 + length..];
    }
  }

  lemma BytesOfNumber(s: seq<Byte>, at: nat)
    requires at + 2 <= |s|
    ensures LeBytes(Number16(s, at), 2) == s[at..at + 2] && Fits16(Number16(s, at))
  {
    var v := Number16(s, at);
    assert v % 256 == s[at] && v / 256 == s[at + 1];
    assert LeBytes(v / 256, 1) == [s[at + 1]] + LeBytes(0, 0);
  }

  /** The data of the first Zip64 field is found behind the others, and none where the fields end before one. */
  lemma {:induction false} ExtraIsSearched(extra: seq<Byte>, pos: nat, before: seq<ExtraField>, rest: seq<Byte>)
    requires forall f <- before :: IsExtraField(f)
    requires pos <= |extra| && extra[pos..] == ExtraBytes(before) + rest
    ensures IsZip64Field(rest) ==> Zip64Extra(extra, pos) == Some(rest[4..4 + Number16(rest, 2)])
    ensures EndsFields(rest) ==> Zip64Extra(extra, pos) == None
    decreases |before|
  {
    hide Field, Le, LeBytes;
    if before == [] {
      assert extra[pos..] == rest;
      if |rest| >= 4 {
        FieldWithin(extra, pos, rest, 0, 2);
        FieldWithin(extra, pos, rest, 2, 2);
        TwoBytes(rest, 0);
        TwoBytes(rest, 2);
        var length := Number16(rest, 2);
        if 4 + length <= |rest| {
          assert extra[pos + 4..pos + 4 + length] == extra[pos..][4..4 + length];
        }
      }
    } else {
      assert before[0] in before && HoldsAt(extra, pos, ExtraBytes(before));
      FirstField(extra, pos, before);
      var next := pos + 4 + |before[0].data|;
      assert extra[next..] == ExtraBytes(before[1..]) + rest;
      ExtraIsSearched(extra, next, before[1..], rest);
    }
  }

  /** A record is passed over if and only if its fields are lost, no local header is where it points, or the data behind that
      does not lie in the file; and any other gives its entry. */
  lemma EntryIsLostIff(record: seq<Byte>, file: seq<Byte>)
    requires IsRecord(record) && IsSafe(|file|)
    ensures var name, extra := Field(record, 28, 2), Field(record, 30, 2);
            match Zip64Fields(Field(record, 20, 4), Field(record, 24, 4), Field(record, 42, 4), record[46 + name..46 + name + extra])
            case None => EntryOf(record, file) == []
            case Some(f) =>
              var at := f.localHeaderOffset;
              if IsLocalHeader(file, at) && at + 30 + Number16(file, at + 26) + Number16(file, at + 28) + f.compressedSize <= |file|
              then EntryOf(record, file) == [Entry(record[46..46 + name], Field(record, 10, 2), f.compressedSize, f.uncompressedSize, at,
                                                   at + 30 + Number16(file, at + 26) + Number16(file, at + 28))]
              else EntryOf(record, file) == []
  {
    hide Field, DataStart, Zip64Fields;
    var name, extra := Field(record, 28, 2), Field(record, 30, 2);
    var fields := Zip64Fields(Field(record, 20, 4), Field(record, 24, 4), Field(record, 42, 4), record[46 + name..46 + name + extra]);
    if fields.Some? {
      DataStartIs(file, fields.value.localHeaderOffset);
    }
  }
}
