/** Two archives byte by byte, as any other writer would make them. */
module ZipExamples {
  import opened Wrappers
  import opened Bytes
  import opened ZipReader
  import opened ZipWriter
  import opened ZipRoundTrip

  function Zeros(n: nat): (s: seq<Byte>)
    ensures |s| == n
  {
    seq(n, _ => 0)
  }

  lemma FourBytesOf(v: nat)
    ensures LeBytes(v, 4) == [v % 256, v / 256 % 256, v / 256 / 256 % 256, v / 256 / 256 / 256 % 256]
  {
    assert LeBytes(v / 256 / 256, 2) == [v / 256 / 256 % 256] + LeBytes(v / 256 / 256 / 256, 1);
  }

  lemma Signatures()
    ensures LeBytes(LFH_SIG, 4) == [0x50, 0x4B, 0x03, 0x04]
    ensures LeBytes(CDFH_SIG, 4) == [0x50, 0x4B, 0x01, 0x02]
    ensures LeBytes(EOCD_SIG, 4) == [0x50, 0x4B, 0x05, 0x06]
    ensures LeBytes(ZIP64_EOCD_SIG, 4) == [0x50, 0x4B, 0x06, 0x06]
    ensures LeBytes(ZIP64_EOCD_LOCATOR_SIG, 4) == [0x50, 0x4B, 0x06, 0x07]
    ensures LeBytes(UINT16_MAX, 2) == [0xFF, 0xFF] && LeBytes(UINT32_MAX, 4) == [0xFF, 0xFF, 0xFF, 0xFF]
  {
    hide LeBytes;
    Saturated();
    FourBytesOf(LFH_SIG);
    FourBytesOf(CDFH_SIG);
    FourBytesOf(EOCD_SIG);
    FourBytesOf(ZIP64_EOCD_SIG);
    FourBytesOf(ZIP64_EOCD_LOCATOR_SIG);
    FourBytesOf(UINT32_MAX);
  }

  lemma Saturated()
    ensures LeBytes(UINT16_MAX, 2) == [0xFF, 0xFF]
  {
  }

  lemma {:induction false} SmallNumber(v: Byte, n: nat)
    requires n > 0
    ensures LeBytes(v, n) == [v] + Zeros(n - 1)
  {
    if n > 1 {
      SmallNumber(0, n - 1);
    }
  }

  lemma Short(v: Byte)
    ensures LeBytes(v, 2) == [v, 0]
  {
    SmallNumber(v, 2);
    assert [v] + Zeros(1) == [v, 0];
  }

  lemma Long(v: Byte)
    ensures LeBytes(v, 4) == [v, 0, 0, 0]
  {
    SmallNumber(v, 4);
    assert [v] + Zeros(3) == [v, 0, 0, 0];
  }

  /** "a", stored, with the content "hi!"; its sizes and its place in the Zip64 extra or not. */
  function TheMember(wide: bool): Member {
    Member([0x61], 0, 3, [0x68, 0x69, 0x21], [], Zeros(22), [0x61], [], Zeros(6), Zeros(8), Zeros(8), [], wide, wide, wide, [], [], [])
  }

  function LocalBytes(): seq<Byte> {
    Concat([[0x50, 0x4B, 0x03, 0x04], Zeros(22), [1, 0], [0, 0], [0x61], [], [0x68, 0x69, 0x21]])
  }

  function PlainCentral(): seq<Byte> {
    Concat([[0x50, 0x4B, 0x01, 0x02], Zeros(6), [0, 0], Zeros(8), [3, 0, 0, 0], [3, 0, 0, 0],
            [1, 0], [0, 0], [0, 0], Zeros(8), [0, 0, 0, 0], [0x61], [], []])
  }

  function WideCentral(): seq<Byte> {
    Concat([[0x50, 0x4B, 0x01, 0x02], Zeros(6), [0, 0], Zeros(8), [0xFF, 0xFF, 0xFF, 0xFF], [0xFF, 0xFF, 0xFF, 0xFF],
            [1, 0], [28, 0], [0, 0], Zeros(8), [0xFF, 0xFF, 0xFF, 0xFF], [0x61], WideExtra(), []])
  }

  function WideExtra(): (s: seq<Byte>)
    ensures |s| == 28
  {
    [1, 0] + [24, 0] + ([3] + Zeros(7)) + ([3] + Zeros(7)) + ([0] + Zeros(7))
  }

  lemma LocalIsWritten(wide: bool)
    ensures LocalRecord(TheMember(wide)) == LocalBytes()
  {
    hide LeBytes, Concat;
    Signatures();
    Short(1);
    Short(0);
    var p, q := LocalParts(TheMember(wide)), [[0x50, 0x4B, 0x03, 0x04], Zeros(22), [1, 0], [0, 0], [0x61], [], [0x68, 0x69, 0x21]];
    assert p == q;
  }

  lemma WideExtraIsWritten()
    ensures Extra(TheMember(true), 0) == WideExtra()
    ensures Zip64Data(TheMember(true), 0) == ([3] + Zeros(7)) + ([3] + Zeros(7)) + ([0] + Zeros(7))
  {
    hide LeBytes;
    Short(1);
    Short(24);
    SmallNumber(3, 8);
    SmallNumber(0, 8);
    var data := Zip64Data(TheMember(true), 0);
    assert data == ([3] + Zeros(7)) + ([3] + Zeros(7)) + ([0] + Zeros(7));
    var field := ExtraField(ZIP64_EXTRA_FIELD_ID, data);
    assert [] + [field] == [field] && [field][1..] == [];
    assert ExtraBytes([field]) == LeBytes(1, 2) + LeBytes(24, 2) + data + ExtraBytes([]);
  }

  lemma CentralIsWritten(wide: bool)
    ensures CentralRecord(TheMember(wide), 0) == if wide then WideCentral() else PlainCentral()
  {
    hide LeBytes, Extra, Concat;
    Signatures();
    Short(1);
    Short(0);
    Short(28);
    Long(3);
    Long(0);
    WideExtraIsWritten();
    PlainExtra();
    var p := CentralParts(TheMember(wide), 0);
    if wide {
      assert p == [[0x50, 0x4B, 0x01, 0x02], Zeros(6), [0, 0], Zeros(8), [0xFF, 0xFF, 0xFF, 0xFF], [0xFF, 0xFF, 0xFF, 0xFF],
            [1, 0], [28, 0], [0, 0], Zeros(8), [0xFF, 0xFF, 0xFF, 0xFF], [0x61], WideExtra(), []];
    } else {
      assert p == [[0x50, 0x4B, 0x01, 0x02], Zeros(6), [0, 0], Zeros(8), [3, 0, 0, 0], [3, 0, 0, 0],
            [1, 0], [0, 0], [0, 0], Zeros(8), [0, 0, 0, 0], [0x61], [], []];
    }
  }

  lemma PlainExtra()
    ensures Extra(TheMember(false), 0) == []
  {
  }

  function TheArchive(wide: bool): Archive {
    var zip64 := if wide then Some(Zip64End(true, true, true, Zeros(36), [], Zeros(4), Zeros(4))) else None;
    Archive([TheMember(wide)], [], [], [], zip64, Zeros(6), [])
  }

  function PlainEnd(): seq<Byte> {
    Concat([[0x50, 0x4B, 0x05, 0x06], Zeros(6), [1, 0], [47, 0, 0, 0], [34, 0, 0, 0], [0, 0], []])
  }

  function WideEnd(): seq<Byte> {
    Concat([[0x50, 0x4B, 0x06, 0x06], Zeros(36), [75] + Zeros(7), [34] + Zeros(7), []])
    + Concat([[0x50, 0x4B, 0x06, 0x07], Zeros(4), [109] + Zeros(7), Zeros(4)])
    + Concat([[0x50, 0x4B, 0x05, 0x06], Zeros(6), [0xFF, 0xFF], [0xFF, 0xFF, 0xFF, 0xFF], [0xFF, 0xFF, 0xFF, 0xFF], [0, 0], []])
  }

  function PlainBytes(): seq<Byte> {
    LocalBytes() + PlainCentral() + PlainEnd()
  }

  function WideBytes(): seq<Byte> {
    LocalBytes() + WideCentral() + WideEnd()
  }

  lemma Sizes(wide: bool)
    ensures |LocalRecord(TheMember(wide))| == 34
    ensures |CentralRecord(TheMember(wide), 0)| == if wide then 75 else 47
  {
    hide LeBytes, Concat;
    var p := LocalParts(TheMember(wide));
    LocalStarts(TheMember(wide));
    StartIsLength(p, 7);
    assert p[..7] == p;
    CentralStarts(TheMember(wide), 0);
    WideExtraIsWritten();
    PlainExtra();
  }

  lemma AreasAreWritten(wide: bool)
    ensures LocalArea(TheArchive(wide).members) == LocalBytes() && CdOffset(TheArchive(wide)) == 34
    ensures Cd(TheArchive(wide)) == if wide then WideCentral() else PlainCentral()
    ensures |Cd(TheArchive(wide))| == if wide then 75 else 47
  {
    hide LocalRecord, CentralRecord, LocalBytes, WideCentral, PlainCentral;
    LocalIsWritten(wide);
    CentralIsWritten(wide);
    Sizes(wide);
    var members := TheArchive(wide).members;
    assert members[1..] == [];
    assert [] + LocalRecord(TheMember(wide)) + LocalArea([]) == LocalRecord(TheMember(wide));
    assert CentralRecord(TheMember(wide), 0) + Directory([], 34) + [] == CentralRecord(TheMember(wide), 0);
  }

  lemma EndIsWritten(wide: bool)
    ensures EndRecord(TheArchive(wide), if wide then 75 else 47, 34) ==
            if wide
            then Concat([[0x50, 0x4B, 0x05, 0x06], Zeros(6), [0xFF, 0xFF], [0xFF, 0xFF, 0xFF, 0xFF], [0xFF, 0xFF, 0xFF, 0xFF], [0, 0], []])
            else PlainEnd()
  {
    hide LeBytes, Concat;
    Signatures();
    Short(1);
    Short(0);
    Long(47);
    Long(34);
    var p := EndParts(TheArchive(wide), if wide then 75 else 47, 34);
    if wide {
      assert p == [[0x50, 0x4B, 0x05, 0x06], Zeros(6), [0xFF, 0xFF], [0xFF, 0xFF, 0xFF, 0xFF], [0xFF, 0xFF, 0xFF, 0xFF], [0, 0], []];
    } else {
      assert p == [[0x50, 0x4B, 0x05, 0x06], Zeros(6), [1, 0], [47, 0, 0, 0], [34, 0, 0, 0], [0, 0], []];
    }
  }

  lemma Zip64IsWritten()
    ensures Zip64Block(TheArchive(true).zip64, 75, 34, 109) ==
            Concat([[0x50, 0x4B, 0x06, 0x06], Zeros(36), [75] + Zeros(7), [34] + Zeros(7), []])
            + Concat([[0x50, 0x4B, 0x06, 0x07], Zeros(4), [109] + Zeros(7), Zeros(4)])
  {
    hide LeBytes, Concat;
    Signatures();
    SmallNumber(75, 8);
    SmallNumber(34, 8);
    SmallNumber(109, 8);
    var z := TheArchive(true).zip64.value;
    var p, q := Zip64RecordParts(z, 75, 34), LocatorParts(z, 109);
    assert p == [[0x50, 0x4B, 0x06, 0x06], Zeros(36), [75] + Zeros(7), [34] + Zeros(7), []];
    assert q == [[0x50, 0x4B, 0x06, 0x07], Zeros(4), [109] + Zeros(7), Zeros(4)];
  }

  lemma Zip64Length()
    ensures |Zip64Block(TheArchive(true).zip64, 75, 34, 109)| == 76
  {
    hide LeBytes, Concat;
    var z := TheArchive(true).zip64.value;
    var p := Zip64RecordParts(z, 75, 34);
    LocatorIsRead(z, 109);
    assert Start(p, 1) == 4;
    assert Start(p, 2) == 40;
    assert Start(p, 3) == 48;
    StartIsLength(p, 5);
    assert p[..5] == p;
  }

  lemma ArchiveIsWritten(wide: bool)
    ensures Write(TheArchive(wide)) == if wide then WideBytes() else PlainBytes()
  {
    hide LocalArea, Cd, CdOffset, EndRecord, Concat, LocalBytes, WideCentral, PlainCentral, PlainEnd, Zip64Record, Locator;
    AreasAreWritten(wide);
    EndIsWritten(wide);
    if wide {
      Zip64IsWritten();
    }
    var a, z := TheArchive(wide), Zip64Block(TheArchive(wide).zip64, |Cd(TheArchive(wide))|, 34, RecordOffset(TheArchive(wide)));
    assert Body(a) == LocalBytes() + Cd(a) + z;
  }

  lemma MemberIsFit(wide: bool)
    ensures MemberFits(TheMember(wide), 0)
  {
    hide Extra, Zip64Data;
    WideExtraIsWritten();
    PlainExtra();
    if !wide {
      PlainZip64();
    }
  }

  lemma PlainZip64()
    ensures Zip64Data(TheMember(false), 0) == []
  {
  }

  lemma ZipBlockIsShort(wide: bool, a: Archive)
    requires a == TheArchive(wide) && CdOffset(a) == 34 && |Cd(a)| == if wide then 75 else 47
    ensures |Zip64Block(a.zip64, |Cd(a)|, CdOffset(a), RecordOffset(a))| <= 76
  {
    hide Zip64Record, Locator, Cd, CdOffset;
    if wide {
      Zip64Length();
    }
  }

  lemma ArchiveIsFit(wide: bool)
    ensures Fits(TheArchive(wide)) && IsLastEndRecord(End(TheArchive(wide)))
  {
    hide LocalArea, LocalRecord, Cd, CdOffset, EndRecord, Concat, Zip64Block, MemberFits, IsLastEndRecord;
    var a := TheArchive(wide);
    AreasAreWritten(wide);
    MemberIsFit(wide);
    ZipBlockIsShort(wide, a);
    Layout(a);
    assert a.members[1..] == [];
    EndIsRead(a, |Cd(a)|, 34);
    NoTrailer(a);
    assert MembersFit(a.members, 0);
    assert EndFits(a.zip64, 1, |Cd(a)|, CdOffset(a));
    assert |End(a)| == 22;
    assert |LocalArea(a.members)| + |a.gap| <= 34;
    assert |Write(a)| <= MAX_SAFE_INTEGER;
    assert Fits16(|a.comment|);
    NoCommentSuffices(a);
  }

  lemma TheEntry(wide: bool)
    ensures Entries(TheArchive(wide).members, 0) == [Entry([0x61], 0, 3, 3, 0, 31)]
  {
    hide LocalRecord;
    assert TheArchive(wide).members[1..] == [];
  }

  /** An archive with the file "a" of content "hi!", as any writer makes it, is read. */
  lemma PlainArchiveIsRead()
    ensures ZipIndex(PlainBytes()) == Some(Index([Entry([0x61], 0, 3, 3, 0, 31)], None))
  {
    hide *;
    ArchiveIsWritten(false);
    ArchiveIsFit(false);
    ReadInvertsWrite(TheArchive(false));
    TheEntry(false);
    NoComment(false);
  }

  /** So is the one that keeps every number it can in its Zip64 form. */
  lemma WideArchiveIsRead()
    ensures ZipIndex(WideBytes()) == Some(Index([Entry([0x61], 0, 3, 3, 0, 31)], None))
  {
    hide *;
    ArchiveIsWritten(true);
    ArchiveIsFit(true);
    ReadInvertsWrite(TheArchive(true));
    TheEntry(true);
    NoComment(true);
  }

  lemma NoComment(wide: bool)
    ensures Optional(TheArchive(wide).comment) == None
  {
  }

  lemma NoTrailer(a: Archive)
    requires a.trailer == []
    ensures Stops(a.trailer)
  {
  }
}
