/** A specification writer for ZIP archives: sections 4.3.7, 4.3.12 and 4.3.14 to 4.3.16 of the PKWARE APPNOTE, with the
    Zip64 extra field of section 4.5.3. Fields the reader does not look at are arbitrary bytes. */
module ZipWriter {
  import opened Wrappers
  import opened Bytes
  import opened ZipReader

  datatype ExtraField = ExtraField(id: nat, data: seq<Byte>)

  datatype Member = Member(
    name: seq<Byte>, compression: nat, uncompressedSize: nat, payload: seq<Byte>,
    /** Bytes left before the local header, the header's unread bytes, and its own name and extra. */
    gap: seq<Byte>, localFiller: seq<Byte>, localName: seq<Byte>, localExtra: seq<Byte>,
    /** Unread bytes of the directory record, and the comment at its end. */
    versions: seq<Byte>, stamp: seq<Byte>, attributes: seq<Byte>, comment: seq<Byte>,
    /** Which fields move to the Zip64 extra, and the extra bytes around it. */
    wideUncompressed: bool, wideCompressed: bool, wideOffset: bool,
    before: seq<ExtraField>, rest: seq<Byte>, after: seq<Byte>)

  /** The Zip64 end record and its locator; a saturated field of the end record points to them. */
  datatype Zip64End = Zip64End(
    wideSize: bool, wideOffset: bool, wideCount: bool,
    recordFiller: seq<Byte>, extension: seq<Byte>, locatorDisk: seq<Byte>, locatorDisks: seq<Byte>)

  datatype Archive = Archive(
    members: seq<Member>, gap: seq<Byte>, trailer: seq<Byte>, endGap: seq<Byte>, zip64: Option<Zip64End>, disks: seq<Byte>, comment: seq<Byte>)

  // ----- Local records

  function LocalParts(m: Member): seq<seq<Byte>> {
    [ LeBytes(LFH_SIG, 4), m.localFiller, LeBytes(|m.localName|, 2), LeBytes(|m.localExtra|, 2),
      m.localName, m.localExtra, m.payload ]
  }

  function LocalRecord(m: Member): seq<Byte> {
    Concat(LocalParts(m))
  }

  function LocalArea(members: seq<Member>): seq<Byte> {
    if members == [] then []
    else members[0].gap + LocalRecord(members[0]) + LocalArea(members[1..])
  }

  // ----- Directory records

  function ExtraBytes(fields: seq<ExtraField>): seq<Byte> {
    if fields == [] then []
    else LeBytes(fields[0].id, 2) + LeBytes(|fields[0].data|, 2) + fields[0].data + ExtraBytes(fields[1..])
  }

  function Wide(used: bool, value: nat): seq<Byte> {
    if used then LeBytes(value, 8) else []
  }

  function Raw(wide: bool, value: nat): nat {
    if wide then UINT32_MAX else value
  }

  predicate IsWide(m: Member) {
    m.wideUncompressed || m.wideCompressed || m.wideOffset
  }

  function Zip64Data(m: Member, offset: nat): seq<Byte> {
    Wide(m.wideUncompressed, m.uncompressedSize) + Wide(m.wideCompressed, |m.payload|) + Wide(m.wideOffset, offset) + m.rest
  }

  /** The extra bytes of a directory record; without wide fields they are arbitrary. */
  function Extra(m: Member, offset: nat): seq<Byte> {
    if IsWide(m)
    then ExtraBytes(m.before + [ExtraField(ZIP64_EXTRA_FIELD_ID, Zip64Data(m, offset))]) + m.after
    else m.after
  }

  function CentralParts(m: Member, offset: nat): seq<seq<Byte>> {
    [ LeBytes(CDFH_SIG, 4), m.versions, LeBytes(m.compression, 2), m.stamp,
      LeBytes(Raw(m.wideCompressed, |m.payload|), 4), LeBytes(Raw(m.wideUncompressed, m.uncompressedSize), 4),
      LeBytes(|m.name|, 2), LeBytes(|Extra(m, offset)|, 2), LeBytes(|m.comment|, 2), m.attributes,
      LeBytes(Raw(m.wideOffset, offset), 4), m.name, Extra(m, offset), m.comment ]
  }

  function CentralRecord(m: Member, offset: nat): seq<Byte> {
    Concat(CentralParts(m, offset))
  }

  /** The directory of members whose local records start at `at`. */
  function Directory(members: seq<Member>, at: nat): seq<Byte> {
    if members == [] then [] else
    var offset := at + |members[0].gap|;
    CentralRecord(members[0], offset) + Directory(members[1..], offset + |LocalRecord(members[0])|)
  }

  /** What reading the members should give. */
  function Entries(members: seq<Member>, at: nat): seq<Entry> {
    if members == [] then [] else
    var m, offset := members[0], at + |members[0].gap|;
    [EntryFor(m, offset)] + Entries(members[1..], offset + |LocalRecord(m)|)
  }

  function EntryFor(m: Member, offset: nat): Entry {
    Entry(m.name, m.compression, |m.payload|, m.uncompressedSize, offset, PayloadStart(m, offset))
  }

  function PayloadStart(m: Member, offset: nat): nat {
    offset + 30 + |m.localName| + |m.localExtra|
  }

  // ----- End records

  function EndParts(a: Archive, cdSize: nat, cdOffset: nat): seq<seq<Byte>> {
    var z := a.zip64;
    [ LeBytes(EOCD_SIG, 4), a.disks,
      LeBytes(if z.Some? && z.value.wideCount then UINT16_MAX else |a.members|, 2),
      LeBytes(Raw(z.Some? && z.value.wideSize, cdSize), 4),
      LeBytes(Raw(z.Some? && z.value.wideOffset, cdOffset), 4),
      LeBytes(|a.comment|, 2), a.comment ]
  }

  function EndRecord(a: Archive, cdSize: nat, cdOffset: nat): seq<Byte> {
    Concat(EndParts(a, cdSize, cdOffset))
  }

  function Zip64RecordParts(z: Zip64End, cdSize: nat, cdOffset: nat): seq<seq<Byte>> {
    [ LeBytes(ZIP64_EOCD_SIG, 4), z.recordFiller, LeBytes(cdSize, 8), LeBytes(cdOffset, 8), z.extension ]
  }

  function Zip64Record(z: Zip64End, cdSize: nat, cdOffset: nat): seq<Byte> {
    Concat(Zip64RecordParts(z, cdSize, cdOffset))
  }

  function LocatorParts(z: Zip64End, recordOffset: nat): seq<seq<Byte>> {
    [ LeBytes(ZIP64_EOCD_LOCATOR_SIG, 4), z.locatorDisk, LeBytes(recordOffset, 8), z.locatorDisks ]
  }

  function Locator(z: Zip64End, recordOffset: nat): seq<Byte> {
    Concat(LocatorParts(z, recordOffset))
  }

  function Zip64Block(z: Option<Zip64End>, cdSize: nat, cdOffset: nat, recordOffset: nat): seq<Byte> {
    match z
    case None => []
    case Some(z) => Zip64Record(z, cdSize, cdOffset) + Locator(z, recordOffset)
  }

  // ----- Archives

  function CdOffset(a: Archive): nat {
    |LocalArea(a.members)| + |a.gap|
  }

  function Cd(a: Archive): seq<Byte> {
    Directory(a.members, 0) + a.trailer
  }

  /** What ends the directory before it is over: anything that does not begin with a member's signature, or is too short. */
  predicate Stops(trailer: seq<Byte>) {
    |trailer| < 46 || Field(trailer, 0, 4) != CDFH_SIG
  }

  function RecordOffset(a: Archive): nat {
    CdOffset(a) + |Cd(a)| + |a.endGap|
  }

  /** Everything before the end record. */
  function Body(a: Archive): seq<Byte> {
    LocalArea(a.members) + a.gap + Cd(a) + a.endGap + Zip64Block(a.zip64, |Cd(a)|, CdOffset(a), RecordOffset(a))
  }

  function End(a: Archive): seq<Byte> {
    EndRecord(a, |Cd(a)|, CdOffset(a))
  }

  function Write(a: Archive): seq<Byte> {
    Body(a) + End(a)
  }

  // ----- What a writer must respect

  predicate Fits16(n: nat) {
    n <= UINT16_MAX
  }

  /** A value that needs its wide form has it. */
  predicate FitsRaw(wide: bool, value: nat) {
    wide || value < UINT32_MAX
  }

  predicate IsExtraField(f: ExtraField) {
    Fits16(f.id) && f.id != ZIP64_EXTRA_FIELD_ID && Fits16(|f.data|)
  }

  predicate MemberFits(m: Member, offset: nat) {
    && Fits16(|m.name|) && Fits16(m.compression) && Fits16(|m.comment|)
    && |m.localFiller| == 22 && Fits16(|m.localName|) && Fits16(|m.localExtra|)
    && |m.versions| == 6 && |m.stamp| == 8 && |m.attributes| == 8
    && Fits16(|Extra(m, offset)|) && Fits16(|Zip64Data(m, offset)|)
    && (forall f <- m.before :: IsExtraField(f))
    && m.uncompressedSize <= MAX_SAFE_INTEGER
    && FitsRaw(m.wideUncompressed, m.uncompressedSize)
    && FitsRaw(m.wideCompressed, |m.payload|)
    && FitsRaw(m.wideOffset, offset)
  }

  predicate MembersFit(members: seq<Member>, at: nat) {
    members == [] ||
    var offset := at + |members[0].gap|;
    MemberFits(members[0], offset) && MembersFit(members[1..], offset + |LocalRecord(members[0])|)
  }

  /** A field that is too large for the end record is saturated there, and then a Zip64 end record holds it. */
  predicate EndFits(z: Option<Zip64End>, count: nat, cdSize: nat, cdOffset: nat) {
    match z
    case None => count < UINT16_MAX && cdSize < UINT32_MAX && cdOffset < UINT32_MAX
    case Some(z) =>
      && (z.wideCount || count < UINT16_MAX) && FitsRaw(z.wideSize, cdSize) && FitsRaw(z.wideOffset, cdOffset)
      && |z.recordFiller| == 36 && |z.locatorDisk| == 4 && |z.locatorDisks| == 4
  }

  predicate Fits(a: Archive) {
    && MembersFit(a.members, 0)
    && EndFits(a.zip64, |a.members|, |Cd(a)|, CdOffset(a))
    && |a.disks| == 6 && Stops(a.trailer)
    && Fits16(|a.comment|)
    && |Write(a)| <= MAX_SAFE_INTEGER
  }

  /** No later position of the end record and its comment reads as an end record that reaches the end of the file. */
  predicate IsLastEndRecord(end: seq<Byte>) {
    forall p: nat :: 0 < p < |end| ==> !IsEndRecord(end, p)
  }
}
