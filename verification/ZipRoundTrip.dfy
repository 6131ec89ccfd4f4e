/** Reading what the specification writer lays out gives the members back. */
module ZipRoundTrip {
  import opened Wrappers
  import opened Bytes
  import opened ZipReader
  import opened ZipWriter

  // ----- Parts of byte runs

  /** `part` lies in `s` at `at`. */
  predicate HoldsAt(s: seq<Byte>, at: nat, part: seq<Byte>) {
    at + |part| <= |s| && s[at..at + |part|] == part
  }

  lemma HoldsWithin(s: seq<Byte>, at: nat, part: seq<Byte>, k: nat, sub: seq<Byte>)
    requires HoldsAt(s, at, part) && HoldsAt(part, k, sub)
    ensures HoldsAt(s, at + k, sub)
  {
    forall i | 0 <= i < |sub|
      ensures s[at + k..at + k + |sub|][i] == sub[i]
    {
      assert sub[i] == part[k..k + |sub|][i] == part[k + i] == s[at..at + |part|][k + i] == s[at + k + i];
    }
    assert s[at + k..at + k + |sub|] == sub;
  }

  lemma HoldsSplit(s: seq<Byte>, at: nat, a: seq<Byte>, b: seq<Byte>)
    requires HoldsAt(s, at, a + b)
    ensures HoldsAt(s, at, a) && HoldsAt(s, at + |a|, b)
  {
    assert (a + b)[0..|a|] == a;
    assert (a + b)[|a|..|a| + |b|] == b;
    HoldsWithin(s, at, a + b, 0, a);
    HoldsWithin(s, at, a + b, |a|, b);
  }

  lemma FieldWithin(s: seq<Byte>, at: nat, part: seq<Byte>, offset: nat, n: nat)
    requires HoldsAt(s, at, part) && offset + n <= |part|
    ensures Field(s, at + offset, n) == Field(part, offset, n)
  {
    hide Le;
    SubField(s, at, |part|, offset, n);
  }

  function Start(parts: seq<seq<Byte>>, k: nat): nat
    requires k <= |parts|
  {
    if k == 0 then 0 else Start(parts, k - 1) + |parts[k - 1]|
  }

  lemma {:induction false} StartIsLength(parts: seq<seq<Byte>>, k: nat)
    requires k <= |parts|
    ensures |Concat(parts[..k])| == Start(parts, k)
  {
    if k > 0 {
      StartIsLength(parts, k - 1);
      ConcatNext(parts, k - 1);
    }
  }

  lemma PartAt(parts: seq<seq<Byte>>, k: nat)
    requires k < |parts|
    ensures HoldsAt(Concat(parts), Start(parts, k), parts[k])
  {
    hide Concat;
    StartIsLength(parts, k);
    ConcatSplit(parts, k);
    ConcatNext(parts, k);
    var s, at := Concat(parts), Start(parts, k);
    assert s == Concat(parts[..k]) + (parts[k] + Concat(parts[k + 1..]));
    assert s[at..at + |parts[k]|] == parts[k];
  }

  /** A part that is a number reads back as a field. */
  lemma FieldAt(parts: seq<seq<Byte>>, k: nat, v: nat, n: nat)
    requires k < |parts| && parts[k] == LeBytes(v, n) && v < Pow256(n)
    ensures Start(parts, k) + n <= |Concat(parts)|
    ensures Field(Concat(parts), Start(parts, k), n) == v
  {
    hide Concat, Start, Le, LeBytes;
    PartAt(parts, k);
    LeOfBytes(v, n);
  }

  lemma Powers()
    ensures Pow256(2) == 0x1_0000 && Pow256(4) == 0x1_0000_0000 && Pow256(8) == 0x1_0000_0000_0000_0000
  {
  }

  // ----- Local records

  lemma LocalStarts(m: Member)
    requires |m.localFiller| == 22
    ensures var p := LocalParts(m);
            && Start(p, 0) == 0 && Start(p, 2) == 26 && Start(p, 3) == 28
            && Start(p, 6) == 30 + |m.localName| + |m.localExtra|
  {
    var p := LocalParts(m);
    assert Start(p, 1) == 4;
    assert Start(p, 2) == 26;
    assert Start(p, 3) == 28;
    assert Start(p, 4) == 30;
    assert Start(p, 5) == 30 + |m.localName|;
  }

  /** The data of a member starts where the reader finds it, and is its payload. */
  lemma LocalHeaderIsRead(m: Member, file: seq<Byte>, offset: nat)
    requires |m.localFiller| == 22 && Fits16(|m.localName|) && Fits16(|m.localExtra|)
    requires IsSafe(|file|) && HoldsAt(file, offset, LocalRecord(m))
    ensures DataStart(file, offset) == Some(PayloadStart(m, offset))
    ensures HoldsAt(file, PayloadStart(m, offset), m.payload)
  {
    hide Le, LeBytes, Concat, Start, Pow256, Field;
    var p, record := LocalParts(m), LocalRecord(m);
    Powers();
    LocalStarts(m);
    FieldAt(p, 0, LFH_SIG, 4);
    FieldAt(p, 2, |m.localName|, 2);
    FieldAt(p, 3, |m.localExtra|, 2);
    PartAt(p, 6);
    HoldsWithin(file, offset, record, Start(p, 6), m.payload);
    HeaderFields(file, offset, record);
  }

  lemma HeaderFields(file: seq<Byte>, offset: nat, record: seq<Byte>)
    requires HoldsAt(file, offset, record) && |record| >= 30
    ensures var header := file[offset..offset + 30];
            && Field(header, 0, 4) == Field(record, 0, 4)
            && Field(header, 26, 2) == Field(record, 26, 2)
            && Field(header, 28, 2) == Field(record, 28, 2)
  {
    hide Le, Field;
    var header := file[offset..offset + 30];
    assert header == record[0..30];
    SubField(record, 0, 30, 0, 4);
    SubField(record, 0, 30, 26, 2);
    SubField(record, 0, 30, 28, 2);
  }

  // ----- Zip64 extra fields

  lemma NumberAt(s: seq<Byte>, at: nat, v: nat, n: nat)
    requires HoldsAt(s, at, LeBytes(v, n)) && v < Pow256(n)
    ensures Field(s, at, n) == v
  {
    hide Le, LeBytes, Pow256;
    LeOfBytes(v, n);
  }

  /** The search passes over the fields before the Zip64 one. */
  lemma {:induction false} ExtraIsFound(extra: seq<Byte>, pos: nat, before: seq<ExtraField>, data: seq<Byte>)
    requires forall f <- before :: IsExtraField(f)
    requires Fits16(|data|)
    requires HoldsAt(extra, pos, ExtraBytes(before + [ExtraField(ZIP64_EXTRA_FIELD_ID, data)]))
    ensures Zip64Extra(extra, pos) == Some(data)
    decreases |before|
  {
    hide Le, LeBytes, Pow256, Field;
    var fields := before + [ExtraField(ZIP64_EXTRA_FIELD_ID, data)];
    assert before != [] ==> IsExtraField(before[0]) && fields[0] == before[0];
    FirstField(extra, pos, fields);
    if before != [] {
      assert fields[1..] == before[1..] + [ExtraField(ZIP64_EXTRA_FIELD_ID, data)];
      ExtraIsFound(extra, pos + 4 + |before[0].data|, before[1..], data);
    }
  }

  lemma FirstField(extra: seq<Byte>, pos: nat, fields: seq<ExtraField>)
    requires fields != [] && Fits16(fields[0].id) && Fits16(|fields[0].data|)
    requires HoldsAt(extra, pos, ExtraBytes(fields))
    ensures var f := fields[0];
            && pos + 4 + |f.data| <= |extra|
            && Field(extra, pos, 2) == f.id
            && Field(extra, pos + 2, 2) == |f.data|
            && extra[pos + 4..pos + 4 + |f.data|] == f.data
            && HoldsAt(extra, pos + 4 + |f.data|, ExtraBytes(fields[1..]))
  {
    hide Le, LeBytes, Pow256, Field;
    var f := fields[0];
    var id, size := LeBytes(f.id, 2), LeBytes(|f.data|, 2);
    Powers();
    HoldsSplit(extra, pos, id + size + f.data, ExtraBytes(fields[1..]));
    HoldsSplit(extra, pos, id + size, f.data);
    HoldsSplit(extra, pos, id, size);
    NumberAt(extra, pos, f.id, 2);
    NumberAt(extra, pos + 2, |f.data|, 2);
  }

  lemma NextIsRead(wide: bool, value: nat, zip64: seq<Byte>, pos: nat)
    requires FitsRaw(wide, value) && value <= MAX_SAFE_INTEGER
    requires HoldsAt(zip64, pos, Wide(wide, value))
    ensures NextField(Raw(wide, value), zip64, pos) == (Some(value), pos + |Wide(wide, value)|)
  {
    hide Le, LeBytes, Pow256, Field;
    Powers();
    if wide {
      NumberAt(zip64, pos, value, 8);
    }
  }

  /** Whatever fields are moved to the Zip64 extra, the three values come back. */
  lemma FieldsAreRead(m: Member, offset: nat)
    requires MemberFits(m, offset)
    requires |m.payload| <= MAX_SAFE_INTEGER && offset <= MAX_SAFE_INTEGER
    ensures Zip64Fields(Raw(m.wideCompressed, |m.payload|), Raw(m.wideUncompressed, m.uncompressedSize), Raw(m.wideOffset, offset), Extra(m, offset))
            == Some(EntryFields(|m.payload|, m.uncompressedSize, offset))
  {
    hide Le, LeBytes, Pow256, Field, ExtraBytes, NextField, Wide, Zip64Extra;
    if IsWide(m) {
      var zip64 := Zip64Data(m, offset);
      var u, c, o := Wide(m.wideUncompressed, m.uncompressedSize), Wide(m.wideCompressed, |m.payload|), Wide(m.wideOffset, offset);
      var fields := m.before + [ExtraField(ZIP64_EXTRA_FIELD_ID, zip64)];
      assert Extra(m, offset) == ExtraBytes(fields) + m.after;
      ExtraIsFound(Extra(m, offset), 0, m.before, zip64);
      assert HoldsAt(zip64, 0, u + c + o + m.rest);
      HoldsSplit(zip64, 0, u + c + o, m.rest);
      HoldsSplit(zip64, 0, u + c, o);
      HoldsSplit(zip64, 0, u, c);
      NextIsRead(m.wideUncompressed, m.uncompressedSize, zip64, 0);
      NextIsRead(m.wideCompressed, |m.payload|, zip64, |u|);
      NextIsRead(m.wideOffset, offset, zip64, |u| + |c|);
    }
  }

  // ----- Directory records

  lemma CentralStarts(m: Member, offset: nat)
    requires |m.versions| == 6 && |m.stamp| == 8 && |m.attributes| == 8
    ensures var p := CentralParts(m, offset);
            && Start(p, 0) == 0 && Start(p, 2) == 10 && Start(p, 4) == 20 && Start(p, 5) == 24 && Start(p, 6) == 28
            && Start(p, 7) == 30 && Start(p, 8) == 32 && Start(p, 10) == 42 && Start(p, 11) == 46
            && Start(p, 12) == 46 + |m.name| && Start(p, 13) == 46 + |m.name| + |Extra(m, offset)|
            && |CentralRecord(m, offset)| == 46 + |m.name| + |Extra(m, offset)| + |m.comment|
  {
    hide LeBytes, Concat, Extra;
    var p := CentralParts(m, offset);
    assert Start(p, 1) == 4;
    assert Start(p, 2) == 10;
    assert Start(p, 3) == 12;
    assert Start(p, 4) == 20;
    assert Start(p, 5) == 24;
    assert Start(p, 6) == 28;
    assert Start(p, 7) == 30;
    assert Start(p, 8) == 32;
    assert Start(p, 9) == 34;
    assert Start(p, 10) == 42;
    assert Start(p, 11) == 46;
    assert Start(p, 12) == 46 + |m.name|;
    assert Start(p, 13) == 46 + |m.name| + |Extra(m, offset)|;
    StartIsLength(p, 14);
    assert p[..14] == p;
  }

  lemma CentralFields(m: Member, offset: nat)
    requires MemberFits(m, offset)
    ensures var record, extra := CentralRecord(m, offset), Extra(m, offset);
            && |record| == 46 + |m.name| + |extra| + |m.comment|
            && Field(record, 0, 4) == CDFH_SIG
            && Field(record, 10, 2) == m.compression
            && Field(record, 20, 4) == Raw(m.wideCompressed, |m.payload|)
            && Field(record, 24, 4) == Raw(m.wideUncompressed, m.uncompressedSize)
            && Field(record, 28, 2) == |m.name|
            && Field(record, 30, 2) == |extra|
            && Field(record, 32, 2) == |m.comment|
            && Field(record, 42, 4) == Raw(m.wideOffset, offset)
  {
    hide Le, LeBytes, Concat, Start, Pow256, Field, Extra, HoldsAt;
    var p := CentralParts(m, offset);
    Powers();
    CentralStarts(m, offset);
    FieldAt(p, 0, CDFH_SIG, 4);
    FieldAt(p, 2, m.compression, 2);
    FieldAt(p, 4, Raw(m.wideCompressed, |m.payload|), 4);
    FieldAt(p, 5, Raw(m.wideUncompressed, m.uncompressedSize), 4);
    FieldAt(p, 6, |m.name|, 2);
    FieldAt(p, 7, |Extra(m, offset)|, 2);
    FieldAt(p, 8, |m.comment|, 2);
    FieldAt(p, 10, Raw(m.wideOffset, offset), 4);
  }

  lemma CentralNames(m: Member, offset: nat)
    requires MemberFits(m, offset)
    ensures var record, extra := CentralRecord(m, offset), Extra(m, offset);
            && HoldsAt(record, 46, m.name)
            && HoldsAt(record, 46 + |m.name|, extra)
  {
    hide LeBytes, Concat, Start, Extra;
    var p := CentralParts(m, offset);
    CentralStarts(m, offset);
    PartAt(p, 11);
    PartAt(p, 12);
  }

  lemma EntryIsRead(m: Member, offset: nat, file: seq<Byte>)
    requires MemberFits(m, offset) && IsSafe(|file|) && HoldsAt(file, offset, LocalRecord(m))
    ensures var record := CentralRecord(m, offset);
            && |record| >= 46 && |record| == RecordLength(record, 0) && Field(record, 0, 4) == CDFH_SIG
            && EntryOf(record, file) == [EntryFor(m, offset)]
    ensures HoldsAt(file, PayloadStart(m, offset), m.payload)
  {
    hide Field, Extra, Zip64Fields, DataStart, LocalRecord, CentralRecord;
    LocalHeaderIsRead(m, file, offset);
    CentralFields(m, offset);
    CentralNames(m, offset);
    FieldsAreRead(m, offset);
  }

  // ----- The directory

  /** A scan of the directory finds the members in order, when their local records lie where it says, and stops at what
      is no member. */
  lemma {:induction false} DirectoryIsRead(members: seq<Member>, at: nat, trailer: seq<Byte>, dir: seq<Byte>, pos: nat, file: seq<Byte>)
    requires MembersFit(members, at) && Stops(trailer)
    requires IsSafe(|file|) && HoldsAt(file, at, LocalArea(members))
    requires pos <= |dir| && dir[pos..] == Directory(members, at) + trailer
    ensures Scan(dir, pos, file) == Some(Entries(members, at))
    decreases |members|
  {
    hide Le, LeBytes, Concat, Field, EntryOf, MemberFits, LocalRecord, CentralRecord, Scan, RecordLength, Stops;
    if members == [] {
      assert dir[pos..] == trailer;
      NothingToScan(dir, pos, file);
    } else {
      var m, offset := members[0], at + |members[0].gap|;
      var record, local := CentralRecord(m, offset), LocalRecord(m);
      var others := Directory(members[1..], offset + |local|) + trailer;
      HoldsSplit(file, at, m.gap + local, LocalArea(members[1..]));
      HoldsSplit(file, at, m.gap, local);
      EntryIsRead(m, offset, file);
      assert dir[pos..] == record + others;
      ScanRecord(dir, pos, record, others, file);
      DirectoryIsRead(members[1..], offset + |local|, trailer, dir, pos + |record|, file);
    }
  }

  lemma NothingToScan(dir: seq<Byte>, pos: nat, file: seq<Byte>)
    requires pos <= |dir| && Stops(dir[pos..])
    ensures Scan(dir, pos, file) == Some([])
  {
    hide Le;
    if |dir| - pos >= 46 {
      assert dir[pos..][0..4] == dir[pos..pos + 4];
    }
  }

  lemma ScanRecord(dir: seq<Byte>, pos: nat, record: seq<Byte>, others: seq<Byte>, file: seq<Byte>)
    requires pos <= |dir| && dir[pos..] == record + others
    requires |record| >= 46 && |record| == RecordLength(record, 0) && Field(record, 0, 4) == CDFH_SIG
    ensures pos + |record| <= |dir| && dir[pos + |record|..] == others
    ensures var here, next := Scan(dir, pos, file), Scan(dir, pos + |record|, file);
            && here.Some? == next.Some?
            && (next.Some? ==> here.value == EntryOf(record, file) + next.value)
  {
    hide Le, Field, EntryOf, RecordLength;
    var next := pos + |record|;
    assert |dir[pos..]| == |record + others|;
    assert dir[pos..next] == dir[pos..][..|record|] == record;
    assert dir[next..] == dir[pos..][|record|..] == others;
    RecordHeader(dir, pos, record);
  }

  lemma RecordHeader(dir: seq<Byte>, pos: nat, record: seq<Byte>)
    requires HoldsAt(dir, pos, record) && |record| >= 46
    ensures Field(dir, pos, 4) == Field(record, 0, 4) && RecordLength(dir, pos) == RecordLength(record, 0)
  {
    hide Field;
    FieldWithin(dir, pos, record, 0, 4);
    FieldWithin(dir, pos, record, 28, 2);
    FieldWithin(dir, pos, record, 30, 2);
    FieldWithin(dir, pos, record, 32, 2);
  }

  /** The payload of each member is where its entry says. */
  lemma {:induction false} PayloadsAreHeld(members: seq<Member>, at: nat, file: seq<Byte>, k: nat)
    requires MembersFit(members, at) && k < |members|
    requires IsSafe(|file|) && HoldsAt(file, at, LocalArea(members))
    ensures |Entries(members, at)| == |members|
    ensures var e := Entries(members, at)[k];
            e.compressedSize == |members[k].payload| && HoldsAt(file, e.dataStart, members[k].payload)
    decreases |members|
  {
    hide Le, LeBytes, Concat, Field, EntryOf, LocalRecord, CentralRecord, Extra, Zip64Data;
    var m, offset := members[0], at + |members[0].gap|;
    var local := LocalRecord(m);
    HoldsSplit(file, at, m.gap + local, LocalArea(members[1..]));
    HoldsSplit(file, at, m.gap, local);
    EntriesPerMember(members[1..], offset + |local|);
    if k == 0 {
      LocalHeaderIsRead(m, file, offset);
    } else {
      PayloadsAreHeld(members[1..], offset + |local|, file, k - 1);
    }
  }

  lemma {:induction false} EntriesPerMember(members: seq<Member>, at: nat)
    ensures |Entries(members, at)| == |members|
    decreases |members|
  {
    hide LocalRecord, EntryFor;
    if members != [] {
      EntriesPerMember(members[1..], at + |members[0].gap| + |LocalRecord(members[0])|);
    }
  }

  // ----- End records

  function EndCount(a: Archive): nat {
    if a.zip64.Some? && a.zip64.value.wideCount then UINT16_MAX else |a.members|
  }

  lemma EndIsRead(a: Archive, cdSize: nat, cdOffset: nat)
    requires |a.disks| == 6 && Fits16(|a.comment|) && EndFits(a.zip64, |a.members|, cdSize, cdOffset)
    ensures var end, z := EndRecord(a, cdSize, cdOffset), a.zip64;
            && |end| == 22 + |a.comment|
            && Field(end, 0, 4) == EOCD_SIG
            && Field(end, 10, 2) == EndCount(a)
            && Field(end, 12, 4) == Raw(z.Some? && z.value.wideSize, cdSize)
            && Field(end, 16, 4) == Raw(z.Some? && z.value.wideOffset, cdOffset)
            && Field(end, 20, 2) == |a.comment|
            && HoldsAt(end, 22, a.comment)
  {
    hide Le, LeBytes, Concat, Start, Pow256, Field, HoldsAt;
    var p, z := EndParts(a, cdSize, cdOffset), a.zip64;
    Powers();
    EndStarts(a, cdSize, cdOffset);
    FieldAt(p, 0, EOCD_SIG, 4);
    FieldAt(p, 2, EndCount(a), 2);
    FieldAt(p, 3, Raw(z.Some? && z.value.wideSize, cdSize), 4);
    FieldAt(p, 4, Raw(z.Some? && z.value.wideOffset, cdOffset), 4);
    FieldAt(p, 5, |a.comment|, 2);
    PartAt(p, 6);
  }

  lemma EndStarts(a: Archive, cdSize: nat, cdOffset: nat)
    requires |a.disks| == 6
    ensures var p := EndParts(a, cdSize, cdOffset);
            && Start(p, 0) == 0 && Start(p, 2) == 10 && Start(p, 3) == 12 && Start(p, 4) == 16 && Start(p, 5) == 20
            && Start(p, 6) == 22 && |EndRecord(a, cdSize, cdOffset)| == 22 + |a.comment|
  {
    hide LeBytes, Concat;
    var p := EndParts(a, cdSize, cdOffset);
    assert Start(p, 1) == 4;
    assert Start(p, 2) == 10;
    assert Start(p, 3) == 12;
    assert Start(p, 4) == 16;
    assert Start(p, 5) == 20;
    assert Start(p, 6) == 22;
    StartIsLength(p, 7);
    assert p[..7] == p;
  }

  lemma Zip64RecordIsRead(z: Zip64End, cdSize: nat, cdOffset: nat)
    requires |z.recordFiller| == 36 && cdSize <= MAX_SAFE_INTEGER && cdOffset <= MAX_SAFE_INTEGER
    ensures var record := Zip64Record(z, cdSize, cdOffset);
            && |record| >= 56
            && Field(record, 0, 4) == ZIP64_EOCD_SIG
            && Field(record, 40, 8) == cdSize
            && Field(record, 48, 8) == cdOffset
  {
    hide Le, LeBytes, Concat, Pow256, Field, HoldsAt;
    var p := Zip64RecordParts(z, cdSize, cdOffset);
    Powers();
    assert Start(p, 1) == 4;
    assert Start(p, 2) == 40;
    assert Start(p, 3) == 48;
    FieldAt(p, 0, ZIP64_EOCD_SIG, 4);
    FieldAt(p, 2, cdSize, 8);
    FieldAt(p, 3, cdOffset, 8);
  }

  lemma LocatorIsRead(z: Zip64End, recordOffset: nat)
    requires |z.locatorDisk| == 4 && |z.locatorDisks| == 4 && recordOffset <= MAX_SAFE_INTEGER
    ensures var locator := Locator(z, recordOffset);
            && |locator| == 20
            && Field(locator, 0, 4) == ZIP64_EOCD_LOCATOR_SIG
            && Field(locator, 8, 8) == recordOffset
  {
    hide Le, LeBytes, Concat, Pow256, Field, HoldsAt;
    var p := LocatorParts(z, recordOffset);
    Powers();
    assert Start(p, 1) == 4;
    assert Start(p, 2) == 8;
    assert Start(p, 3) == 16;
    FieldAt(p, 0, ZIP64_EOCD_LOCATOR_SIG, 4);
    FieldAt(p, 2, recordOffset, 8);
    StartIsLength(p, 4);
    assert p[..4] == p;
  }

  /** The locator right before the end record leads to the Zip64 record. */
  lemma Zip64EocdIsRead(file: seq<Byte>, z: Zip64End, cdSize: nat, cdOffset: nat, recordOffset: nat, eocdOffset: nat, comment: Option<seq<Byte>>)
    requires |z.recordFiller| == 36 && |z.locatorDisk| == 4 && |z.locatorDisks| == 4
    requires cdSize <= MAX_SAFE_INTEGER && cdOffset <= MAX_SAFE_INTEGER && IsSafe(|file|)
    requires var record, locator := Zip64Record(z, cdSize, cdOffset), Locator(z, recordOffset);
             && HoldsAt(file, recordOffset, record + locator)
             && eocdOffset == recordOffset + |record| + |locator|
    ensures Zip64Eocd(file, eocdOffset, comment) == Some(Eocd(cdOffset, cdSize, comment))
  {
    hide Le, LeBytes, Concat, Pow256, Field, Zip64Record, Locator;
    var record, locator := Zip64Record(z, cdSize, cdOffset), Locator(z, recordOffset);
    Zip64RecordIsRead(z, cdSize, cdOffset);
    LocatorIsRead(z, recordOffset);
    HoldsSplit(file, recordOffset, record, locator);
    assert ReadAt(file, eocdOffset - 20, 20) == Some(locator);
    var header := file[recordOffset..recordOffset + 56];
    assert ReadAt(file, recordOffset, 56) == Some(header);
    assert header == record[0..56];
    SubField(record, 0, 56, 0, 4);
    SubField(record, 0, 56, 40, 8);
    SubField(record, 0, 56, 48, 8);
  }

  lemma EndRecordInTail(tail: seq<Byte>, pos: nat, end: seq<Byte>, p: nat)
    requires pos <= |tail| && tail[pos..] == end
    ensures IsEndRecord(tail, pos + p) == IsEndRecord(end, p)
  {
    hide Field;
    if p + 22 <= |end| {
      assert HoldsAt(tail, pos, end);
      FieldWithin(tail, pos, end, p, 4);
      FieldWithin(tail, pos, end, p + 20, 2);
    }
  }

  /** The search from the end of the file stops at the end record if and only if no later position reads as one. */
  lemma SearchFindsIff(tail: seq<Byte>, pos: nat, end: seq<Byte>)
    requires pos <= |tail| && tail[pos..] == end
    requires IsEndRecord(end, 0)
    ensures LastEndRecord(tail, |tail| - 22) == Some(pos) <==> IsLastEndRecord(end)
  {
    hide Field;
    EndRecordInTail(tail, pos, end, 0);
    if IsLastEndRecord(end) {
      forall q: nat | pos < q < |tail|
        ensures !IsEndRecord(tail, q)
      {
        EndRecordInTail(tail, pos, end, q - pos);
      }
      SearchStopsAt(tail, |tail| - 22, pos);
    } else {
      var p: nat :| 0 < p < |end| && IsEndRecord(end, p);
      EndRecordInTail(tail, pos, end, p);
      SearchStopsBy(tail, |tail| - 22, pos + p);
    }
  }

  lemma {:induction false} SearchStopsAt(tail: seq<Byte>, from: int, pos: nat)
    requires IsEndRecord(tail, pos) && pos <= from < |tail|
    requires forall q: nat :: pos < q < |tail| ==> !IsEndRecord(tail, q)
    ensures LastEndRecord(tail, from) == Some(pos)
    decreases from - pos
  {
    hide IsEndRecord;
    if from > pos {
      SearchStopsAt(tail, from - 1, pos);
    }
  }

  lemma {:induction false} SearchStopsBy(tail: seq<Byte>, from: int, pos: nat)
    requires IsEndRecord(tail, pos) && pos <= from
    ensures LastEndRecord(tail, from).Some? && LastEndRecord(tail, from).value >= pos
    decreases from - pos
  {
    hide IsEndRecord;
    if from > pos && !IsEndRecord(tail, from) {
      SearchStopsBy(tail, from - 1, pos);
    }
  }

  // ----- Archives

  /** Where the pieces of a written archive lie. */
  lemma Layout(a: Archive)
    ensures var file := Write(a);
            && HoldsAt(file, 0, LocalArea(a.members))
            && HoldsAt(file, CdOffset(a), Cd(a))
            && HoldsAt(file, RecordOffset(a), Zip64Block(a.zip64, |Cd(a)|, CdOffset(a), RecordOffset(a)))
            && |Body(a)| == RecordOffset(a) + |Zip64Block(a.zip64, |Cd(a)|, CdOffset(a), RecordOffset(a))|
            && |file| == |Body(a)| + |End(a)|
            && file[|Body(a)|..] == End(a)
  {
    hide LocalArea, Cd, Zip64Block, End;
    var file, locals, cd := Write(a), LocalArea(a.members), Cd(a);
    var z := Zip64Block(a.zip64, |cd|, CdOffset(a), RecordOffset(a));
    assert HoldsAt(file, 0, Body(a) + End(a));
    HoldsSplit(file, 0, Body(a), End(a));
    HoldsSplit(file, 0, locals + a.gap + cd + a.endGap, z);
    HoldsSplit(file, 0, locals + a.gap + cd, a.endGap);
    HoldsSplit(file, 0, locals + a.gap, cd);
    HoldsSplit(file, 0, locals, a.gap);
  }

  function TailOffset(file: seq<Byte>): nat {
    |file| - Min(|file|, MAX_EOCD_SEARCH_BYTES)
  }

  /** A comment, when there is one. */
  function Optional(comment: seq<Byte>): Option<seq<Byte>> {
    if comment == [] then None else Some(comment)
  }

  /** The search of the last bytes finds the end record that was written if and only if neither the end record nor the
      comment holds a later one that reaches the end of the file. */
  lemma EndRecordIsFoundIff(a: Archive)
    requires Fits(a)
    ensures var file, tailOffset := Write(a), TailOffset(Write(a));
            && tailOffset <= |Body(a)|
            && (LastEndRecord(file[tailOffset..], |file| - tailOffset - 22) == Some(|Body(a)| - tailOffset) <==> IsLastEndRecord(End(a)))
  {
    hide Field, EndRecord, Body, Cd, CdOffset, MembersFit, IsLastEndRecord, LastEndRecord;
    var file, tailOffset := Write(a), TailOffset(Write(a));
    Layout(a);
    EndIsRead(a, |Cd(a)|, CdOffset(a));
    var tail := file[tailOffset..];
    assert tail[|Body(a)| - tailOffset..] == file[|Body(a)|..];
    SearchFindsIff(tail, |Body(a)| - tailOffset, End(a));
  }

  /** Without a comment there is no later end record. */
  lemma NoCommentSuffices(a: Archive)
    requires Fits(a) && a.comment == []
    ensures IsLastEndRecord(End(a))
  {
    hide Field, EndRecord, Body, Cd, CdOffset, MembersFit;
    EndIsRead(a, |Cd(a)|, CdOffset(a));
  }

  /** What the end record at its place in the tail says of the directory. */
  lemma EndIsResolved(a: Archive, file: seq<Byte>, tail: seq<Byte>, pos: nat)
    requires Fits(a) && file == Write(a) && |tail| <= |file| && tail == file[|file| - |tail|..]
    requires pos == |Body(a)| - (|file| - |tail|) && IsEndRecord(tail, pos)
    ensures EndRecordAt(file, tail, |file| - |tail|, pos) == Some(Eocd(CdOffset(a), |Cd(a)|, Optional(a.comment)))
  {
    hide Field, EndRecord, Body, Cd, CdOffset, MembersFit, RecordOffset, Write, Zip64Record, Locator, Zip64Eocd;
    Layout(a);
    var end := End(a);
    assert tail[pos..] == file[|Body(a)|..];
    EndIsRead(a, |Cd(a)|, CdOffset(a));
    EndFieldsInTail(tail, pos, end);
    assert tail[pos + 22..] == end[22..22 + |a.comment|];
    if a.zip64.Some? {
      SizesAreSafe(a);
      Zip64EocdIsRead(file, a.zip64.value, |Cd(a)|, CdOffset(a), RecordOffset(a), |Body(a)|, Optional(a.comment));
    }
  }

  lemma EndFieldsInTail(tail: seq<Byte>, pos: nat, end: seq<Byte>)
    requires pos <= |tail| && tail[pos..] == end && |end| >= 22
    ensures pos + 22 <= |tail|
    ensures Field(tail, pos + 10, 2) == Field(end, 10, 2)
    ensures Field(tail, pos + 12, 4) == Field(end, 12, 4)
    ensures Field(tail, pos + 16, 4) == Field(end, 16, 4)
    ensures Field(tail, pos + 20, 2) == Field(end, 20, 2)
  {
    hide Field;
    assert HoldsAt(tail, pos, end);
    FieldWithin(tail, pos, end, 10, 2);
    FieldWithin(tail, pos, end, 12, 4);
    FieldWithin(tail, pos, end, 16, 4);
    FieldWithin(tail, pos, end, 20, 2);
  }

  lemma SizesAreSafe(a: Archive)
    requires |Write(a)| <= MAX_SAFE_INTEGER
    ensures CdOffset(a) + |Cd(a)| <= |Write(a)|
    ensures CdOffset(a) <= MAX_SAFE_INTEGER && |Cd(a)| <= MAX_SAFE_INTEGER
  {
  }

  lemma EndIsFound(a: Archive)
    requires Fits(a) && IsLastEndRecord(End(a))
    ensures FindEocd(Write(a)) == Some(Eocd(CdOffset(a), |Cd(a)|, Optional(a.comment)))
  {
    hide Field, EndRecord, Body, Cd, CdOffset, MembersFit, IsLastEndRecord, Write, EndRecordAt, LastEndRecord;
    var file := Write(a);
    EndRecordIsFoundIff(a);
    Layout(a);
    EndIsRead(a, |Cd(a)|, CdOffset(a));
    var tail := file[TailOffset(file)..];
    EndIsResolved(a, file, tail, |Body(a)| - TailOffset(file));
  }

  /** Reading an archive gives its members in order, each with its data at its payload, and its comment. */
  lemma ReadInvertsWrite(a: Archive)
    requires Fits(a) && IsLastEndRecord(End(a))
    ensures ZipIndex(Write(a)) == Some(Index(Entries(a.members, 0), Optional(a.comment)))
  {
    hide Field, Body, Cd, CdOffset, MembersFit, IsLastEndRecord, FindEocd;
    hide Scan, LocalArea, EndFits, Entries, Write, Zip64Block, End;
    var file := Write(a);
    Layout(a);
    SizesAreSafe(a);
    EndIsFound(a);
    DirectoryInFile(a, file);
  }

  lemma DirectoryInFile(a: Archive, file: seq<Byte>)
    requires MembersFit(a.members, 0) && Stops(a.trailer) && IsSafe(|file|) && HoldsAt(file, 0, LocalArea(a.members))
    ensures Scan(Cd(a), 0, file) == Some(Entries(a.members, 0))
  {
    hide Field, MembersFit, Scan, LocalArea, Directory, Entries;
    assert Cd(a)[0..] == Directory(a.members, 0) + a.trailer;
    DirectoryIsRead(a.members, 0, a.trailer, Cd(a), 0, file);
  }

  /** Every entry read from a written archive gives back its member's name and method, and its data is the payload. */
  lemma PayloadsAreRead(a: Archive, k: nat)
    requires Fits(a) && IsLastEndRecord(End(a)) && k < |a.members|
    ensures ZipIndex(Write(a)).Some? && |ZipIndex(Write(a)).value.entries| == |a.members|
    ensures var e, m := ZipIndex(Write(a)).value.entries[k], a.members[k];
            && e.name == m.name && e.compression == m.compression
            && IsInside(e, |Write(a)|)
            && ReadAt(Write(a), e.dataStart, e.compressedSize) == Some(m.payload)
  {
    hide *;
    ReadInvertsWrite(a);
    MemberIsRead(a, k);
  }

  lemma MemberIsRead(a: Archive, k: nat)
    requires Fits(a) && k < |a.members|
    ensures |Entries(a.members, 0)| == |a.members|
    ensures var e, m := Entries(a.members, 0)[k], a.members[k];
            && e.name == m.name && e.compression == m.compression
            && IsInside(e, |Write(a)|)
            && ReadAt(Write(a), e.dataStart, e.compressedSize) == Some(m.payload)
  {
    hide MembersFit, LocalArea, Cd, CdOffset, Write, Entries, IsInside, ReadAt, EndFits, HoldsAt;
    Layout(a);
    MemberInFile(a.members, Write(a), k);
  }

  lemma MemberInFile(members: seq<Member>, file: seq<Byte>, k: nat)
    requires MembersFit(members, 0) && IsSafe(|file|) && HoldsAt(file, 0, LocalArea(members)) && k < |members|
    ensures |Entries(members, 0)| == |members|
    ensures var e, m := Entries(members, 0)[k], members[k];
            && e.name == m.name && e.compression == m.compression
            && IsInside(e, |file|)
            && ReadAt(file, e.dataStart, e.compressedSize) == Some(m.payload)
  {
    hide MembersFit, LocalArea, Entries, ReadAt;
    PayloadsAreHeld(members, 0, file, k);
    EntryIsItsMembers(members, 0, k);
    InsideIsReadable(Entries(members, 0)[k], file);
  }

  lemma {:induction false} EntryIsItsMembers(members: seq<Member>, at: nat, k: nat)
    requires k < |members|
    ensures |Entries(members, at)| == |members|
    ensures var e, m := Entries(members, at)[k], members[k];
            e.name == m.name && e.compression == m.compression && e.localHeaderOffset + 30 <= e.dataStart
    decreases |members|
  {
    hide LocalRecord;
    EntriesPerMember(members, at);
    if k > 0 {
      EntryIsItsMembers(members[1..], at + |members[0].gap| + |LocalRecord(members[0])|, k - 1);
    }
  }
}
