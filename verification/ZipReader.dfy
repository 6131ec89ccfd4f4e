/** The ZIP index reader: end record, Zip64 end record, central directory and local headers, read from a file that may
    return fewer bytes than asked for. */
module ZipReader {
  import opened Wrappers
  import opened Bytes

  const EOCD_SIG := 0x06054B50
  const CDFH_SIG := 0x02014B50
  const LFH_SIG := 0x04034B50
  const ZIP64_EOCD_LOCATOR_SIG := 0x07064B50
  const ZIP64_EOCD_SIG := 0x06064B50
  const ZIP64_EXTRA_FIELD_ID := 1
  const UINT32_MAX := 0xFFFF_FFFF
  const UINT16_MAX := 0xFFFF
  const MAX_EOCD_SEARCH_BYTES := 65_535 + 22
  const MAX_SAFE_INTEGER := 0x1F_FFFF_FFFF_FFFF

  predicate IsSafe(value: int) {
    0 <= value <= MAX_SAFE_INTEGER
  }

  predicate IsRangeInside(start: int, length: int, totalSize: int) {
    IsSafe(start) && IsSafe(length) && start <= totalSize && length <= totalSize - start
  }

  /** A little-endian field of `n` bytes at `offset`. */
  function Field(s: seq<Byte>, offset: nat, n: nat): nat
    requires offset + n <= |s|
  {
    Le(s[offset..offset + n])
  }

  // ----- Reading

  /** What reading exactly `length` bytes at `position` yields, however the reads are cut up. */
  function ReadAt(file: seq<Byte>, position: nat, length: nat): Option<seq<Byte>> {
    if !IsSafe(position) || !IsSafe(length) then None
    else if length == 0 then Some([])
    else if position + length <= |file| then Some(file[position..position + length])
    else None
  }

  /** An open file. */
  class FileHandle {
    const bytes: seq<Byte>

    constructor (bytes: seq<Byte>)
      ensures this.bytes == bytes
    {
      this.bytes := bytes;
    }

    /** One read: any number of bytes up to what is asked for and available, none only when there is nothing to read. */
    method Read(buffer: array<Byte>, offset: nat, length: nat, position: nat) returns (bytesRead: nat)
      requires offset + length <= buffer.Length
      modifies buffer
      ensures bytesRead <= length && (bytesRead > 0 ==> position + bytesRead <= |bytes|)
      ensures bytesRead == 0 ==> length == 0 || position >= |bytes|
      ensures buffer[..offset] == old(buffer[..offset])
      ensures bytesRead > 0 ==> buffer[offset..offset + bytesRead] == bytes[position..position + bytesRead]
    {
      if length == 0 || position >= |bytes| {
        return 0;
      }
      bytesRead :| 1 <= bytesRead <= length && position + bytesRead <= |bytes|;
      for k := 0 to bytesRead
        invariant buffer[..offset] == old(buffer[..offset])
        invariant buffer[offset..offset + k] == bytes[position..position + k]
      {
        buffer[offset + k] := bytes[position + k];
        assert buffer[offset..offset + k + 1] == buffer[offset..offset + k] + [bytes[position + k]];
      }
    }
  }

  method ReadExactly(fh: FileHandle, position: nat, length: nat) returns (r: Option<seq<Byte>>)
    ensures r == ReadAt(fh.bytes, position, length)
  {
    if !IsSafe(position) || !IsSafe(length) {
      return None;
    }
    var buf := new Byte[length];
    var bytesRead := 0;
    while bytesRead < length
      invariant bytesRead <= length
      invariant bytesRead > 0 ==> position + bytesRead <= |fh.bytes| && buf[..bytesRead] == fh.bytes[position..position + bytesRead]
    {
      ghost var was := buf[..bytesRead];
      var n := fh.Read(buf, bytesRead, length - bytesRead, position + bytesRead);
      if n == 0 {
        return None;
      }
      ghost var more := fh.bytes[position + bytesRead..position + bytesRead + n];
      assert buf[..bytesRead + n] == was + more;
      JoinedSlices(fh.bytes, position, position + bytesRead, position + bytesRead + n);
      assert bytesRead == 0 ==> was + more == more;
      bytesRead := bytesRead + n;
    }
    r := Some(buf[..]);
    assert buf[..] == buf[..bytesRead];
  }

  // ----- The end record

  datatype Eocd = Eocd(cdOffset: nat, cdSize: nat, comment: Option<seq<Byte>>)

  /** A 64-bit field, unless it exceeds the safe integers. */
  function SafeField64(s: seq<Byte>, offset: nat): Option<nat>
    requires offset + 8 <= |s|
  {
    var v := Field(s, offset, 8);
    if v > MAX_SAFE_INTEGER then None else Some(v)
  }

  function Zip64Eocd(file: seq<Byte>, eocdOffset: nat, comment: Option<seq<Byte>>): Option<Eocd> {
    if eocdOffset < 20 then None
    else match ReadAt(file, eocdOffset - 20, 20)
      case None => None
      case Some(locator) =>
        if |locator| < 20 || Field(locator, 0, 4) != ZIP64_EOCD_LOCATOR_SIG then None
        else match SafeField64(locator, 8)
          case None => None
          case Some(offset) =>
            match ReadAt(file, offset, 56)
            case None => None
            case Some(record) =>
              if |record| < 56 || Field(record, 0, 4) != ZIP64_EOCD_SIG then None
              else match (SafeField64(record, 40), SafeField64(record, 48))
                case (Some(cdSize), Some(cdOffset)) => Some(Eocd(cdOffset, cdSize, comment))
                case _ => None
  }

  method ReadZip64Eocd(fh: FileHandle, eocdOffset: nat, comment: Option<seq<Byte>>) returns (r: Option<Eocd>)
    ensures r == Zip64Eocd(fh.bytes, eocdOffset, comment)
  {
    if eocdOffset < 20 {
      return None;
    }
    var locator := ReadExactly(fh, eocdOffset - 20, 20);
    if locator == None || Field(locator.value, 0, 4) != ZIP64_EOCD_LOCATOR_SIG {
      return None;
    }
    var zip64EocdOffset := SafeField64(locator.value, 8);
    if zip64EocdOffset == None {
      return None;
    }
    var record := ReadExactly(fh, zip64EocdOffset.value, 56);
    if record == None || Field(record.value, 0, 4) != ZIP64_EOCD_SIG {
      return None;
    }
    var cdSize, cdOffset := SafeField64(record.value, 40), SafeField64(record.value, 48);
    if cdSize == None || cdOffset == None {
      return None;
    }
    r := Some(Eocd(cdOffset.value, cdSize.value, comment));
  }

  /** An end record whose comment reaches the end of the file. */
  predicate IsEndRecord(tail: seq<Byte>, pos: nat) {
    && pos + 22 <= |tail|
    && Field(tail, pos, 4) == EOCD_SIG
    && pos + 22 + Field(tail, pos + 20, 2) == |tail|
  }

  /** The last end record at or before `pos`. */
  function LastEndRecord(tail: seq<Byte>, pos: int): (found: Option<nat>)
    ensures found.Some? ==> found.value <= pos && IsEndRecord(tail, found.value)
    decreases pos + 1
  {
    if pos < 0 then None
    else if IsEndRecord(tail, pos) then Some(pos)
    else LastEndRecord(tail, pos - 1)
  }

  /** The fields of the end record at `pos`, or those of its Zip64 record when one of them is saturated. */
  function EndRecordAt(file: seq<Byte>, tail: seq<Byte>, tailOffset: nat, pos: nat): Option<Eocd>
    requires IsEndRecord(tail, pos)
  {
    var commentLength := Field(tail, pos + 20, 2);
    var rawCdSize := Field(tail, pos + 12, 4);
    var rawCdOffset := Field(tail, pos + 16, 4);
    var totalEntries := Field(tail, pos + 10, 2);
    var comment := if commentLength > 0 then Some(tail[pos + 22..]) else None;
    if rawCdSize == UINT32_MAX || rawCdOffset == UINT32_MAX || totalEntries == UINT16_MAX
    then Zip64Eocd(file, tailOffset + pos, comment)
    else Some(Eocd(rawCdOffset, rawCdSize, comment))
  }

  function FindEocd(file: seq<Byte>): Option<Eocd> {
    if |file| < 22 || !IsSafe(|file|) then None else
    var tailOffset := |file| - Min(|file|, MAX_EOCD_SEARCH_BYTES);
    var tail := file[tailOffset..];
    match LastEndRecord(tail, |tail| - 22)
    case None => None
    case Some(pos) => EndRecordAt(file, tail, tailOffset, pos)
  }

  method ReadEocd(fh: FileHandle) returns (r: Option<Eocd>)
    requires IsSafe(|fh.bytes|)
    ensures r == FindEocd(fh.bytes)
  {
    hide Le, Field, Zip64Eocd;
    var fileSize := |fh.bytes|;
    if fileSize < 22 {
      return None;
    }
    var tailLength := Min(fileSize, MAX_EOCD_SEARCH_BYTES);
    var tailOffset := fileSize - tailLength;
    var read := ReadExactly(fh, tailOffset, tailLength);
    assert fh.bytes[tailOffset..tailOffset + tailLength] == fh.bytes[tailOffset..];
    if read == None {
      return None;
    }
    var tail := read.value;
    var pos := |tail| - 22;
    while pos >= 0
      invariant -1 <= pos <= |tail| - 22
      invariant LastEndRecord(tail, |tail| - 22) == LastEndRecord(tail, pos)
    {
      if Field(tail, pos, 4) == EOCD_SIG {
        var commentLength := Field(tail, pos + 20, 2);
        if pos + 22 + commentLength == |tail| {
          var eocdOffset := tailOffset + pos;
          var rawCdSize := Field(tail, pos + 12, 4);
          var rawCdOffset := Field(tail, pos + 16, 4);
          var totalEntries := Field(tail, pos + 10, 2);
          var comment := if commentLength > 0 then Some(tail[pos + 22..]) else None;
          if rawCdSize == UINT32_MAX || rawCdOffset == UINT32_MAX || totalEntries == UINT16_MAX {
            r := ReadZip64Eocd(fh, eocdOffset, comment);
            return;
          }
          return Some(Eocd(rawCdOffset, rawCdSize, comment));
        }
      }
      pos := pos - 1;
    }
    r := None;
  }

  // ----- Zip64 extra fields

  function Zip64Extra(extra: seq<Byte>, pos: nat): Option<seq<Byte>>
    decreases |extra| - pos
  {
    if pos + 4 > |extra| then None else
    var dataEnd := pos + 4 + Field(extra, pos + 2, 2);
    if dataEnd > |extra| then None
    else if Field(extra, pos, 2) == ZIP64_EXTRA_FIELD_ID then Some(extra[pos + 4..dataEnd])
    else Zip64Extra(extra, dataEnd)
  }

  method FindZip64Extra(extra: seq<Byte>) returns (r: Option<seq<Byte>>)
    ensures r == Zip64Extra(extra, 0)
  {
    var pos := 0;
    while pos + 4 <= |extra|
      invariant Zip64Extra(extra, 0) == Zip64Extra(extra, pos)
      decreases |extra| - pos
    {
      var headerId := Field(extra, pos, 2);
      var dataSize := Field(extra, pos + 2, 2);
      var dataStart := pos + 4;
      var dataEnd := dataStart + dataSize;
      if dataEnd > |extra| {
        return None;
      }
      if headerId == ZIP64_EXTRA_FIELD_ID {
        return Some(extra[dataStart..dataEnd]);
      }
      pos := dataEnd;
    }
    r := None;
  }

  datatype EntryFields = EntryFields(compressedSize: nat, uncompressedSize: nat, localHeaderOffset: nat)

  /** A field that is saturated is taken from the next eight bytes of the extra data, which moves on. */
  function NextField(raw: nat, zip64: seq<Byte>, pos: nat): (Option<nat>, nat) {
    if raw != UINT32_MAX then (Some(raw), pos)
    else if pos + 8 > |zip64| then (None, pos)
    else (SafeField64(zip64, pos), pos + 8)
  }

  function Zip64Fields(rawCompressed: nat, rawUncompressed: nat, rawOffset: nat, extra: seq<Byte>): Option<EntryFields> {
    if rawCompressed != UINT32_MAX && rawUncompressed != UINT32_MAX && rawOffset != UINT32_MAX
    then Some(EntryFields(rawCompressed, rawUncompressed, rawOffset))
    else match Zip64Extra(extra, 0)
      case None => None
      case Some(zip64) =>
        var (uncompressed, p1) := NextField(rawUncompressed, zip64, 0);
        var (compressed, p2) := NextField(rawCompressed, zip64, p1);
        var (offset, p3) := NextField(rawOffset, zip64, p2);
        match (compressed, uncompressed, offset)
        case (Some(c), Some(u), Some(o)) => Some(EntryFields(c, u, o))
        case _ => None
  }

  method ParseZip64EntryFields(rawCompressed: nat, rawUncompressed: nat, rawOffset: nat, extra: seq<Byte>) returns (r: Option<EntryFields>)
    ensures r == Zip64Fields(rawCompressed, rawUncompressed, rawOffset, extra)
  {
    var needsCompressed := rawCompressed == UINT32_MAX;
    var needsUncompressed := rawUncompressed == UINT32_MAX;
    var needsOffset := rawOffset == UINT32_MAX;
    if !needsCompressed && !needsUncompressed && !needsOffset {
      return Some(EntryFields(rawCompressed, rawUncompressed, rawOffset));
    }
    var found := FindZip64Extra(extra);
    if found == None {
      return None;
    }
    var zip64 := found.value;
    var pos := 0;
    var uncompressed, compressed, offset := Some(rawUncompressed), Some(rawCompressed), Some(rawOffset);
    if needsUncompressed {
      if pos + 8 > |zip64| {
        uncompressed := None;
      } else {
        uncompressed, pos := SafeField64(zip64, pos), pos + 8;
      }
    }
    if needsCompressed {
      if pos + 8 > |zip64| {
        compressed := None;
      } else {
        compressed, pos := SafeField64(zip64, pos), pos + 8;
      }
    }
    if needsOffset {
      if pos + 8 > |zip64| {
        offset := None;
      } else {
        offset, pos := SafeField64(zip64, pos), pos + 8;
      }
    }
    if uncompressed == None || compressed == None || offset == None {
      return None;
    }
    r := Some(EntryFields(compressed.value, uncompressed.value, offset.value));
  }

  // ----- Local headers

  function DataStart(file: seq<Byte>, localHeaderOffset: nat): Option<nat> {
    if !IsRangeInside(localHeaderOffset, 30, |file|) then None else
    var header := file[localHeaderOffset..localHeaderOffset + 30];
    if Field(header, 0, 4) != LFH_SIG then None else
    var dataStart := localHeaderOffset + 30 + Field(header, 26, 2) + Field(header, 28, 2);
    if !IsRangeInside(localHeaderOffset, dataStart - localHeaderOffset, |file|) then None else Some(dataStart)
  }

  method ReadDataStart(fh: FileHandle, localHeaderOffset: nat) returns (r: Option<nat>)
    ensures r == DataStart(fh.bytes, localHeaderOffset)
  {
    if !IsRangeInside(localHeaderOffset, 30, |fh.bytes|) {
      return None;
    }
    var header := ReadExactly(fh, localHeaderOffset, 30);
    if header == None || Field(header.value, 0, 4) != LFH_SIG {
      return None;
    }
    var fileNameLength := Field(header.value, 26, 2);
    var extraLength := Field(header.value, 28, 2);
    var dataStart := localHeaderOffset + 30 + fileNameLength + extraLength;
    if !IsRangeInside(localHeaderOffset, dataStart - localHeaderOffset, |fh.bytes|) {
      return None;
    }
    r := Some(dataStart);
  }

  // ----- The central directory

  /** Names and comments stay bytes; decoding them is left to their users. */
  datatype Entry = Entry(
    name: seq<Byte>, compression: nat, compressedSize: nat, uncompressedSize: nat, localHeaderOffset: nat, dataStart: nat)

  datatype Index = Index(entries: seq<Entry>, comment: Option<seq<Byte>>)

  /** Length of the directory record at `pos`, with its variable part. */
  function RecordLength(dir: seq<Byte>, pos: nat): nat
    requires pos + 46 <= |dir|
  {
    46 + Field(dir, pos + 28, 2) + Field(dir, pos + 30, 2) + Field(dir, pos + 32, 2)
  }

  /** The entry of a whole directory record, when its sizes and its local header check out. */
  function EntryOf(record: seq<Byte>, file: seq<Byte>): seq<Entry>
    requires |record| >= 46 && |record| == RecordLength(record, 0)
  {
    var nameLength, extraLength := Field(record, 28, 2), Field(record, 30, 2);
    var extra := record[46 + nameLength..46 + nameLength + extraLength];
    match Zip64Fields(Field(record, 20, 4), Field(record, 24, 4), Field(record, 42, 4), extra)
    case None => []
    case Some(f) =>
      match DataStart(file, f.localHeaderOffset)
      case None => []
      case Some(dataStart) =>
        if !IsRangeInside(dataStart, f.compressedSize, |file|) then []
        else [Entry(record[46..46 + nameLength], Field(record, 10, 2), f.compressedSize, f.uncompressedSize, f.localHeaderOffset, dataStart)]
  }

  /** The entries of a directory from `pos` on; it is given as the bytes of the directory alone. */
  function Scan(dir: seq<Byte>, pos: nat, file: seq<Byte>): Option<seq<Entry>>
    decreases |dir| - pos
  {
    if pos + 46 > |dir| || Field(dir, pos, 4) != CDFH_SIG then Some([])
    else if pos + RecordLength(dir, pos) > |dir| then None
    else
      var next := pos + RecordLength(dir, pos);
      RecordIsWhole(dir, pos);
      match Scan(dir, next, file)
      case None => None
      case Some(rest) => Some(EntryOf(dir[pos..next], file) + rest)
  }

  lemma RecordIsWhole(dir: seq<Byte>, pos: nat)
    requires pos + 46 <= |dir| && pos + RecordLength(dir, pos) <= |dir|
    ensures var record := dir[pos..pos + RecordLength(dir, pos)];
            |record| >= 46 && |record| == RecordLength(record, 0)
  {
    var record := dir[pos..pos + RecordLength(dir, pos)];
    SubField(dir, pos, |record|, 28, 2);
    SubField(dir, pos, |record|, 30, 2);
    SubField(dir, pos, |record|, 32, 2);
  }

  lemma SubField(s: seq<Byte>, pos: nat, length: nat, offset: nat, n: nat)
    requires pos + length <= |s| && offset + n <= length
    ensures Field(s[pos..pos + length], offset, n) == Field(s, pos + offset, n)
  {
    hide Le;
    SliceOfSlice(s, pos, pos + length, pos + offset, pos + offset + n);
  }

  function ZipIndex(file: seq<Byte>): Option<Index> {
    if !IsSafe(|file|) then None
    else match FindEocd(file)
      case None => None
      case Some(eocd) =>
        if !IsRangeInside(eocd.cdOffset, eocd.cdSize, |file|) then None
        else match Scan(file[eocd.cdOffset..eocd.cdOffset + eocd.cdSize], 0, file)
          case None => None
          case Some(entries) => Some(Index(entries, eocd.comment))
  }

  /** The whole record at `pos`: its fixed part, and then its variable part. */
  method ReadEntry(fh: FileHandle, fixed: seq<Byte>, variable: seq<Byte>) returns (found: seq<Entry>)
    requires |fixed| == 46 && |fixed + variable| == RecordLength(fixed + variable, 0)
    ensures found == EntryOf(fixed + variable, fh.bytes)
  {
    hide Field, Le;
    RecordFields(fixed, variable);
    var fileNameLength := Field(fixed, 28, 2);
    var extraLength := Field(fixed, 30, 2);
    var name := variable[..fileNameLength];
    var extra := variable[fileNameLength..fileNameLength + extraLength];
    VariablePart(fixed, variable, 0, fileNameLength);
    VariablePart(fixed, variable, fileNameLength, fileNameLength + extraLength);
    var fields := ParseZip64EntryFields(Field(fixed, 20, 4), Field(fixed, 24, 4), Field(fixed, 42, 4), extra);
    found := [];
    if fields.Some? && IsRangeInside(fields.value.localHeaderOffset, 30, |fh.bytes|) {
      var f := fields.value;
      var dataStart := ReadDataStart(fh, f.localHeaderOffset);
      if dataStart.Some? && IsRangeInside(dataStart.value, f.compressedSize, |fh.bytes|) {
        found := [Entry(name, Field(fixed, 10, 2), f.compressedSize, f.uncompressedSize, f.localHeaderOffset, dataStart.value)];
      }
    }
  }

  lemma RecordFields(fixed: seq<Byte>, variable: seq<Byte>)
    requires |fixed| == 46
    ensures Field(fixed + variable, 10, 2) == Field(fixed, 10, 2)
    ensures Field(fixed + variable, 20, 4) == Field(fixed, 20, 4)
    ensures Field(fixed + variable, 24, 4) == Field(fixed, 24, 4)
    ensures Field(fixed + variable, 28, 2) == Field(fixed, 28, 2)
    ensures Field(fixed + variable, 30, 2) == Field(fixed, 30, 2)
    ensures Field(fixed + variable, 42, 4) == Field(fixed, 42, 4)
  {
    hide Field;
    FixedField(fixed, variable, 10, 2);
    FixedField(fixed, variable, 20, 4);
    FixedField(fixed, variable, 24, 4);
    FixedField(fixed, variable, 28, 2);
    FixedField(fixed, variable, 30, 2);
    FixedField(fixed, variable, 42, 4);
  }

  lemma FixedField(fixed: seq<Byte>, variable: seq<Byte>, offset: nat, n: nat)
    requires offset + n <= |fixed|
    ensures Field(fixed + variable, offset, n) == Field(fixed, offset, n)
  {
    hide Le;
    assert (fixed + variable)[offset..offset + n] == fixed[offset..offset + n];
  }

  lemma VariablePart(fixed: seq<Byte>, variable: seq<Byte>, start: nat, end: nat)
    requires |fixed| == 46 && start <= end <= |variable|
    ensures (fixed + variable)[46 + start..46 + end] == variable[start..end]
  {
  }

  /** What the directory record at `dir[pos..]` looks like from the file that holds the directory at `cdOffset`. */
  lemma RecordInFile(file: seq<Byte>, cdOffset: nat, cdEnd: nat, pos: nat)
    requires cdOffset <= pos && pos + 46 <= cdEnd <= |file|
    ensures var dir, fixed := file[cdOffset..cdEnd], file[pos..pos + 46];
            && Field(dir, pos - cdOffset, 4) == Field(fixed, 0, 4)
            && RecordLength(dir, pos - cdOffset) == RecordLength(fixed, 0)
  {
    hide Field;
    FieldInFile(file, cdOffset, cdEnd, pos, 0, 4);
    FieldInFile(file, cdOffset, cdEnd, pos, 28, 2);
    FieldInFile(file, cdOffset, cdEnd, pos, 30, 2);
    FieldInFile(file, cdOffset, cdEnd, pos, 32, 2);
  }

  lemma FieldInFile(file: seq<Byte>, cdOffset: nat, cdEnd: nat, pos: nat, offset: nat, n: nat)
    requires cdOffset <= pos && pos + 46 <= cdEnd <= |file| && offset + n <= 46
    ensures Field(file[cdOffset..cdEnd], pos - cdOffset + offset, n) == Field(file[pos..pos + 46], offset, n)
  {
    hide Field;
    SubField(file, cdOffset, cdEnd - cdOffset, pos - cdOffset + offset, n);
    SubField(file, pos, 46, offset, n);
  }

  /** One more record moved from the scan to the entries already collected. */
  lemma ScanAppends(dir: seq<Byte>, pos: nat, file: seq<Byte>, before: seq<Entry>, found: seq<Entry>)
    requires pos + 46 <= |dir| && Field(dir, pos, 4) == CDFH_SIG && pos + RecordLength(dir, pos) <= |dir|
    requires |dir[pos..pos + RecordLength(dir, pos)]| == RecordLength(dir[pos..pos + RecordLength(dir, pos)], 0)
    requires found == EntryOf(dir[pos..pos + RecordLength(dir, pos)], file)
    ensures var here, next := Scan(dir, pos, file), Scan(dir, pos + RecordLength(dir, pos), file);
            && here.None? == next.None?
            && (here.Some? ==> before + here.value == (before + found) + next.value)
  {
  }

  lemma RecordParts(file: seq<Byte>, cdOffset: nat, cdEnd: nat, pos: nat)
    requires cdOffset <= pos && pos + 46 <= cdEnd <= |file|
    requires pos + RecordLength(file[pos..pos + 46], 0) <= cdEnd
    ensures var fixed, length := file[pos..pos + 46], RecordLength(file[pos..pos + 46], 0);
            var record := fixed + file[pos + 46..pos + length];
            && file[cdOffset..cdEnd][pos - cdOffset..pos - cdOffset + length] == record
            && |record| == RecordLength(record, 0)
  {
    var dir, fixed := file[cdOffset..cdEnd], file[pos..pos + 46];
    var length := RecordLength(fixed, 0);
    var record := fixed + file[pos + 46..pos + length];
    var p := pos - cdOffset;
    JoinedSlices(file, pos, pos + 46, pos + length);
    SliceOfSlice(file, cdOffset, cdEnd, pos, pos + length);
    RecordInFile(file, cdOffset, cdEnd, pos);
    RecordIsWhole(dir, p);
  }

  method ReadCbzZipIndex(fh: FileHandle) returns (index: Option<Index>)
    ensures index == ZipIndex(fh.bytes)
  {
    hide Le, Field, EntryOf, FindEocd;
    var fileSize := |fh.bytes|;
    if !IsSafe(fileSize) {
      return None;
    }
    var eocd := ReadEocd(fh);
    if eocd == None || !IsRangeInside(eocd.value.cdOffset, eocd.value.cdSize, fileSize) {
      return None;
    }
    var entries := [];
    var cdOffset := eocd.value.cdOffset;
    var cdEnd := cdOffset + eocd.value.cdSize;
    var pos := cdOffset;
    ghost var dir := fh.bytes[cdOffset..cdEnd];
    ghost var all := Scan(dir, 0, fh.bytes);
    if all.Some? {
      assert [] + all.value == all.value;
    }
    while pos + 46 <= cdEnd
      invariant cdOffset <= pos <= cdEnd
      invariant var rest := Scan(dir, pos - cdOffset, fh.bytes);
                all == if rest.None? then None else Some(entries + rest.value)
      decreases cdEnd - pos
    {
      var fixed := ReadExactly(fh, pos, 46);
      if fixed == None {
        return None;
      }
      RecordInFile(fh.bytes, cdOffset, cdEnd, pos);
      if Field(fixed.value, 0, 4) != CDFH_SIG {
        break;
      }
      var variableLength := Field(fixed.value, 28, 2) + Field(fixed.value, 30, 2) + Field(fixed.value, 32, 2);
      var nextPos := pos + 46 + variableLength;
      if nextPos > cdEnd {
        return None;
      }
      var variable := ReadExactly(fh, pos + 46, variableLength);
      if variable == None {
        return None;
      }
      RecordParts(fh.bytes, cdOffset, cdEnd, pos);
      var found := ReadEntry(fh, fixed.value, variable.value);
      ScanAppends(dir, pos - cdOffset, fh.bytes, entries, found);
      entries := entries + found;
      pos := nextPos;
    }
    assert Scan(dir, pos - cdOffset, fh.bytes) == Some([]);
    assert entries + [] == entries;
    assert all == Some(entries);
    index := Some(Index(entries, eocd.value.comment));
  }

  // ----- Safety on arbitrary bytes

  /** What is promised of an entry: its header is below its data, and its data lies in the file. */
  predicate IsInside(e: Entry, fileSize: nat) {
    e.localHeaderOffset + 30 <= e.dataStart && e.dataStart + e.compressedSize <= fileSize
  }

  lemma {:induction false} ScanIsSafe(dir: seq<Byte>, pos: nat, file: seq<Byte>)
    requires pos <= |dir|
    ensures var found := Scan(dir, pos, file);
            found.Some? ==>
              && 46 * |found.value| <= |dir| - pos
              && forall e <- found.value :: IsInside(e, |file|)
    decreases |dir| - pos
  {
    hide Field;
    if pos + 46 <= |dir| && Field(dir, pos, 4) == CDFH_SIG && pos + RecordLength(dir, pos) <= |dir| {
      var next := pos + RecordLength(dir, pos);
      RecordIsWhole(dir, pos);
      ScanIsSafe(dir, next, file);
      EntryIsInside(dir[pos..next], file);
    }
  }

  lemma EntryIsInside(record: seq<Byte>, file: seq<Byte>)
    requires |record| >= 46 && |record| == RecordLength(record, 0)
    ensures |EntryOf(record, file)| <= 1
    ensures forall e <- EntryOf(record, file) :: IsInside(e, |file|)
  {
  }

  /** Whatever the bytes, an index that is returned has at most one entry for every 46 bytes of a directory that lies in
      the file, and the data of each entry can be read in full. */
  lemma IndexIsSafe(file: seq<Byte>)
    requires ZipIndex(file).Some?
    ensures FindEocd(file).Some?
    ensures var eocd, entries := FindEocd(file).value, ZipIndex(file).value.entries;
            && eocd.cdOffset + eocd.cdSize <= |file|
            && 46 * |entries| <= eocd.cdSize
            && forall e <- entries ::
                 && IsInside(e, |file|)
                 && ReadAt(file, e.dataStart, e.compressedSize) == Some(file[e.dataStart..e.dataStart + e.compressedSize])
  {
    hide Field, FindEocd, Scan;
    var eocd := FindEocd(file).value;
    var dir := file[eocd.cdOffset..eocd.cdOffset + eocd.cdSize];
    ScanIsSafe(dir, 0, file);
    forall e <- ZipIndex(file).value.entries
      ensures ReadAt(file, e.dataStart, e.compressedSize) == Some(file[e.dataStart..e.dataStart + e.compressedSize])
    {
      InsideIsReadable(e, file);
    }
  }

  lemma InsideIsReadable(e: Entry, file: seq<Byte>)
    requires IsSafe(|file|) && IsInside(e, |file|)
    ensures ReadAt(file, e.dataStart, e.compressedSize) == Some(file[e.dataStart..e.dataStart + e.compressedSize])
  {
    if e.compressedSize == 0 {
      assert file[e.dataStart..e.dataStart] == [];
    }
  }

  /** Past the end of the directory, only the local headers matter: files that differ elsewhere have the same index. */
  lemma IndexDependsOnDirectory(file: seq<Byte>, other: seq<Byte>)
    requires |file| == |other| && FindEocd(file) == FindEocd(other) && FindEocd(file).Some?
    requires forall offset :: DataStart(file, offset) == DataStart(other, offset)
    requires var eocd := FindEocd(file).value;
             IsRangeInside(eocd.cdOffset, eocd.cdSize, |file|) ==>
               file[eocd.cdOffset..eocd.cdOffset + eocd.cdSize] == other[eocd.cdOffset..eocd.cdOffset + eocd.cdSize]
    ensures ZipIndex(file) == ZipIndex(other)
  {
    hide FindEocd, Scan, DataStart;
    var eocd := FindEocd(file).value;
    if IsRangeInside(eocd.cdOffset, eocd.cdSize, |file|) {
      ScanDependsOnDirectory(file[eocd.cdOffset..eocd.cdOffset + eocd.cdSize], 0, file, other);
    }
  }

  lemma {:induction false} ScanDependsOnDirectory(dir: seq<Byte>, pos: nat, file: seq<Byte>, other: seq<Byte>)
    requires |file| == |other| && forall offset :: DataStart(file, offset) == DataStart(other, offset)
    ensures Scan(dir, pos, file) == Scan(dir, pos, other)
    decreases |dir| - pos
  {
    hide Field, DataStart, Zip64Fields;
    if pos + 46 <= |dir| && Field(dir, pos, 4) == CDFH_SIG && pos + RecordLength(dir, pos) <= |dir| {
      var next := pos + RecordLength(dir, pos);
      RecordIsWhole(dir, pos);
      ScanDependsOnDirectory(dir, next, file, other);
      assert EntryOf(dir[pos..next], file) == EntryOf(dir[pos..next], other);
    }
  }

  // ----- Extraction

  predicate IsSupportedCompression(e: Entry) {
    e.compression == 0 || e.compression == 8
  }

  /** The content of an entry: none when its method is unknown or its data is out of range. Inflating may throw. */
  method ExtractCbzZipEntry(fh: FileHandle, e: Entry, inflate: seq<Byte> -> Result<seq<Byte>>) returns (r: Result<Option<seq<Byte>>>)
    ensures !IsSupportedCompression(e) ==> r == Success(None)
    ensures IsSupportedCompression(e) && ReadAt(fh.bytes, e.dataStart, e.compressedSize) == None ==> r == Success(None)
    ensures IsInside(e, |fh.bytes|) && IsSafe(|fh.bytes|) ==>
              var payload := fh.bytes[e.dataStart..e.dataStart + e.compressedSize];
              && (e.compression == 0 ==> r == Success(Some(payload)))
              && (e.compression == 8 ==> r == match inflate(payload) case Thrown => Thrown case Success(content) => Success(Some(content)))
  {
    if !IsSupportedCompression(e) {
      return Success(None);
    }
    var payload := ReadExactly(fh, e.dataStart, e.compressedSize);
    if IsInside(e, |fh.bytes|) && IsSafe(|fh.bytes|) {
      InsideIsReadable(e, fh.bytes);
    }
    if payload == None {
      return Success(None);
    }
    if e.compression == 0 {
      return Success(payload);
    }
    var content :- inflate(payload.value);
    r := Success(Some(content));
  }
}
