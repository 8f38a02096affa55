/** The stub archive (`StubArchive` in insect_hazard_viewer.py): a table of
    named, compressed files appended to the executable after its PE sections
    and introduced by the marker `77 77 77 77`. */
module StubArchive {
  import opened Binary
  import opened Utf16

  const Signature: seq<Byte> := [0x77, 0x77, 0x77, 0x77]
  /** Size of a PE section header (`IMAGE_SECTION_HEADER`). */
  const SectionHeaderSize: nat := 40

  /** The reads that raise `struct.error` in the source because the slice
      they unpack runs past the end of the file. */
  datatype ArchiveError = PeHeaderTruncated | SectionTableTruncated | ArchiveHeaderTruncated

  /** One record of the table. The name is kept as the UTF-16 code units
      read from the file; `Filename` decodes it as the scan does. */
  datatype ArchiveEntry = ArchiveEntry(
    index: nat,
    rawName: seq<U16>,
    crc: U32,
    compressedSize: U32,
    dataOffset: nat)
  {
    function Filename(): string
    {
      EntryName(rawName, index)
    }
  }

  datatype SectionTable = SectionTable(offset: nat, count: U16)

  // ---------------------------------------------------------------------
  // Locating the overlay

  /** The section table: `e_lfanew` at 0x3C gives the PE header, which holds
      `NumberOfSections` at +6 and `SizeOfOptionalHeader` at +20; the table
      follows the 24 bytes of signature and COFF header and the optional
      header. */
  function LocateSectionTable(data: seq<Byte>): Option<SectionTable>
  {
    match ReadU32(data, 0x3C)
    case None => None
    case Some(pe) =>
      match ReadU16(data, pe + 6)
      case None => None
      case Some(n) =>
        match ReadU16(data, pe + 20)
        case None => None
        case Some(optSize) => Some(SectionTable(pe + 24 + optSize, n))
  }

  /** `PointerToRawData + SizeOfRawData` of section `i` (fields at +20 and
      +16 of its header), or `None` if the header runs past the end. */
  function SectionEnd(data: seq<Byte>, table: nat, i: nat): Option<nat>
  {
    var h := table + i * SectionHeaderSize;
    match (ReadU32(data, h + 16), ReadU32(data, h + 20))
    case (Some(rawSize), Some(rawPtr)) => Some(rawPtr as int + rawSize as int)
    case _ => None
  }

  /** The largest section end among sections `0 .. n-1` (0 when `n == 0`). */
  function MaxSectionEnd(data: seq<Byte>, table: nat, n: nat): Option<nat>
  {
    if n == 0 then Some(0)
    else
      match (MaxSectionEnd(data, table, n - 1), SectionEnd(data, table, n - 1))
      case (Some(m), Some(e)) => Some(if e > m then e else m)
      case _ => None
  }

  /** Where the overlay starts: past the raw data of every section. */
  function OverlayStart(data: seq<Byte>): Result<nat, ArchiveError>
  {
    match LocateSectionTable(data)
    case None => Err(PeHeaderTruncated)
    case Some(t) =>
      match MaxSectionEnd(data, t.offset, t.count)
      case None => Err(SectionTableTruncated)
      case Some(m) => Ok(m)
  }

  /** The section-end maximum is an upper bound of every section end and is
      attained (or is 0 with no sections); it fails exactly when some
      section header is cut off. */
  lemma {:induction false} MaxSectionEndIsMaximum(data: seq<Byte>, table: nat, n: nat)
    ensures MaxSectionEnd(data, table, n).None? <==>
              exists i :: 0 <= i < n && SectionEnd(data, table, i).None?
    ensures MaxSectionEnd(data, table, n).Some? ==>
              var m := MaxSectionEnd(data, table, n).value;
              && (forall i :: 0 <= i < n ==> SectionEnd(data, table, i).Some? && SectionEnd(data, table, i).value <= m)
              && (n == 0 ==> m == 0)
              && (n > 0 ==> exists i :: 0 <= i < n && SectionEnd(data, table, i) == Some(m))
  {
    if n > 0 {
      MaxSectionEndIsMaximum(data, table, n - 1);
      var prev, last := MaxSectionEnd(data, table, n - 1), SectionEnd(data, table, n - 1);
      if prev.Some? && last.Some? && n - 1 > 0 {
        var j :| 0 <= j < n - 1 && SectionEnd(data, table, j) == Some(prev.value);
        assert 0 <= j < n;
      }
    }
  }

  /** The `for i in range(num_sections)` loop computing `overlay_start`. */
  method LocateOverlay(data: seq<Byte>) returns (r: Result<nat, ArchiveError>)
    ensures r == OverlayStart(data)
  {
    var table := LocateSectionTable(data);
    if table.None? {
      return Err(PeHeaderTruncated);
    }
    var maxEnd := 0;
    for i := 0 to table.value.count
      invariant MaxSectionEnd(data, table.value.offset, i) == Some(maxEnd)
    {
      var h := table.value.offset + i * SectionHeaderSize;
      var rawSize := ReadU32(data, h + 16);
      var rawPtr := ReadU32(data, h + 20);
      if rawSize.None? || rawPtr.None? {
        assert MaxSectionEnd(data, table.value.offset, i + 1).None?;
        MaxSectionEndNone(data, table.value.offset, i + 1, table.value.count);
        return Err(SectionTableTruncated);
      }
      var sectionEnd := rawPtr.value as int + rawSize.value as int;
      maxEnd := if sectionEnd > maxEnd then sectionEnd else maxEnd;
    }
    return Ok(maxEnd);
  }

  /** Once a section header is cut off, so is the maximum over any longer
      prefix of the table. */
  lemma {:induction false} MaxSectionEndNone(data: seq<Byte>, table: nat, i: nat, n: nat)
    requires i <= n && MaxSectionEnd(data, table, i).None?
    ensures MaxSectionEnd(data, table, n).None?
  {
    if i < n {
      MaxSectionEndNone(data, table, i, n - 1);
    }
  }

  // ---------------------------------------------------------------------
  // The record table

  /** `name_bytes.decode('utf-16le').rstrip('\x00')`, or `file_{i}` when
      decoding fails. */
  function EntryName(units: seq<U16>, i: nat): string
  {
    match DecodeUtf16(units)
    case Some(s) => StripTrailingNul(s)
    case None => "file_" + DecimalString(i)
  }

  /** A name stored as the UTF-16 encoding of some text is shown as that
      text without trailing NULs, never as `file_{i}`. */
  lemma {:induction false} EntryNameEncoded(name: string, i: nat)
    ensures EntryName(EncodeUtf16(name), i) == StripTrailingNul(name)
  {
    DecodeEncode(name);
  }

  /** Offset just past the name of the record at `p`: a u16 name length
      followed by that many UTF-16LE code units. */
  function NameEnd(data: seq<Byte>, p: nat): nat
    requires p + 2 <= |data|
  {
    p + 2 + 2 * U16At(data, p)
  }

  /** The record at `p` cannot be read: its name length, or its name with the
      u32 CRC and u32 size after it, would pass the end. */
  predicate Truncated(data: seq<Byte>, p: nat)
  {
    p + 2 > |data| || NameEnd(data, p) + 8 > |data|
  }

  /** Record `i`, starting at `pos`, with its payload after the CRC and size;
      `None` when it is cut off by the end of `data`. */
  function ReadRecord(data: seq<Byte>, pos: nat, i: nat): (r: Option<ArchiveEntry>)
    ensures r.None? <==> Truncated(data, pos)
    ensures r.Some? ==>
              && r.value.index == i
              && 8 <= r.value.dataOffset <= |data|
              && r.value.dataOffset == NameEnd(data, pos) + 8
              && |r.value.rawName| == U16At(data, pos)
              && r.value.rawName == UnitsAt(data, pos + 2, U16At(data, pos))
              && r.value.crc == U32At(data, r.value.dataOffset - 8)
              && r.value.compressedSize == U32At(data, r.value.dataOffset - 4)
  {
    if Truncated(data, pos) then None
    else
      var fields := NameEnd(data, pos);
      Some(ArchiveEntry(i, UnitsAt(data, pos + 2, U16At(data, pos)), U32At(data, fields), U32At(data, fields + 4), fields + 8))
  }

  /** One pass of the `for i in range(file_count)` loop body: the reads of
      one record, each checked against the end of the file. */
  method ReadRecordAt(data: seq<Byte>, pos: nat, i: nat) returns (r: Option<ArchiveEntry>)
    ensures r == ReadRecord(data, pos, i)
  {
    if pos + 2 > |data| {
      return None;
    }
    var nameLen := U16At(data, pos);
    var namePos := pos + 2;
    if namePos + nameLen * 2 > |data| {
      return None;
    }
    var name := UnitsAt(data, namePos, nameLen);
    var fieldsPos := namePos + nameLen * 2;
    if fieldsPos + 8 > |data| {
      return None;
    }
    var crc := U32At(data, fieldsPos);
    var compressedSize := U32At(data, fieldsPos + 4);
    return Some(ArchiveEntry(i, name, crc, compressedSize, fieldsPos + 8));
  }

  /** Where the record after `e` starts. */
  function NextRecord(e: ArchiveEntry): nat
  {
    e.dataOffset + e.compressedSize
  }

  /** The entries read from record `i` on, the record starting at `pos`; the
      walk ends after `count` records or at the first record cut off by the
      end of `data`. */
  function Walk(data: seq<Byte>, pos: nat, i: nat, count: nat): seq<ArchiveEntry>
    decreases count - i
  {
    if i >= count then []
    else
      match ReadRecord(data, pos, i)
      case None => []
      case Some(e) => [e] + Walk(data, NextRecord(e), i + 1, count)
  }

  /** A walk yields at most `count - i` entries. */
  lemma {:induction false} WalkLength(data: seq<Byte>, pos: nat, i: nat, count: nat)
    requires i <= count
    ensures |Walk(data, pos, i, count)| <= count - i
    decreases count - i
  {
    if i < count {
      var r := ReadRecord(data, pos, i);
      if r.Some? {
        var rest := Walk(data, NextRecord(r.value), i + 1, count);
        WalkLength(data, NextRecord(r.value), i + 1, count);
        assert Walk(data, pos, i, count) == [r.value] + rest;
      } else {
        assert Walk(data, pos, i, count) == [];
      }
    }
  }

  /** Where the `k`-th record of a walk from `pos` starts: `pos` for the
      first, and the end of the previous payload for each next one. */
  function RecordStart(w: seq<ArchiveEntry>, pos: nat, k: nat): nat
    requires k <= |w|
  {
    if k == 0 then pos else NextRecord(w[k - 1])
  }

  /** The `k`-th entry of a walk is the record read where the previous
      payload ends, numbered `i + k`. */
  lemma {:induction false} WalkRecord(data: seq<Byte>, pos: nat, i: nat, count: nat, k: nat)
    requires k < |Walk(data, pos, i, count)|
    ensures var w := Walk(data, pos, i, count);
      ReadRecord(data, RecordStart(w, pos, k), i + k) == Some(w[k])
    decreases k
  {
    var w := Walk(data, pos, i, count);
    var r := ReadRecord(data, pos, i);
    assert i < count && r.Some?;
    var next := NextRecord(r.value);
    var rest := Walk(data, next, i + 1, count);
    assert w == [r.value] + rest;
    if k > 0 {
      WalkRecord(data, next, i + 1, count, k - 1);
      assert w[k] == rest[k - 1];
      assert RecordStart(w, pos, k) == RecordStart(rest, next, k - 1);
    }
  }

  /** Entries are numbered from `i` in table order; each one's name is the
      code units that follow its u16 length at the record start, and its CRC
      and size are the two u32 fields just before its payload. */
  lemma WalkEntry(data: seq<Byte>, pos: nat, i: nat, count: nat, k: nat)
    requires k < |Walk(data, pos, i, count)|
    ensures var w := Walk(data, pos, i, count);
      var e, start := w[k], RecordStart(w, pos, k);
      && e.index == i + k
      && start + 2 + 2 * |e.rawName| + 8 == e.dataOffset <= |data|
      && U16At(data, start) == |e.rawName|
      && e.rawName == UnitsAt(data, start + 2, |e.rawName|)
      && e.crc == U32At(data, e.dataOffset - 8)
      && e.compressedSize == U32At(data, e.dataOffset - 4)
  {
    WalkRecord(data, pos, i, count, k);
  }

  /** A walk that returns fewer than `count - i` entries stopped because the
      next record was cut off by the end of the file, never for another
      reason. */
  lemma {:induction false} WalkStopsOnlyAtTruncation(data: seq<Byte>, pos: nat, i: nat, count: nat)
    requires i <= count
    ensures var w := Walk(data, pos, i, count);
      |w| < count - i ==> Truncated(data, RecordStart(w, pos, |w|))
    decreases count - i
  {
    var w := Walk(data, pos, i, count);
    if w != [] {
      var next := NextRecord(w[0]);
      var rest := Walk(data, next, i + 1, count);
      WalkStopsOnlyAtTruncation(data, next, i + 1, count);
      assert w == [w[0]] + rest;
      assert RecordStart(w, pos, |w|) == RecordStart(rest, next, |rest|);
    }
  }

  /** The archive signature at or after the overlay, if any. */
  function FindArchive(data: seq<Byte>): Result<Option<nat>, ArchiveError>
  {
    match OverlayStart(data)
    case Err(e) => Err(e)
    case Ok(overlay) => Ok(IndexOf(data, Signature, overlay))
  }

  /** The table introduced by the signature at `sig`: header length at +8,
      entry count at +0x1C, records from `sig + header length`. */
  function ReadTable(data: seq<Byte>, sig: nat): Result<seq<ArchiveEntry>, ArchiveError>
  {
    match (ReadU32(data, sig + 8), ReadU32(data, sig + 0x1C))
    case (Some(headerSize), Some(fileCount)) => Ok(Walk(data, sig + headerSize, 0, fileCount))
    case _ => Err(ArchiveHeaderTruncated)
  }

  /** The bytes `f.seek(data_offset); f.read(compressed_size)` returns: the
      payload, cut short by the end of the file. */
  function Payload(data: seq<Byte>, e: ArchiveEntry): (p: seq<Byte>)
    ensures |p| <= e.compressedSize
    ensures e.dataOffset <= |data| ==>
              |p| == (if e.dataOffset + e.compressedSize <= |data| then e.compressedSize else |data| - e.dataOffset)
    ensures e.dataOffset <= |data| ==>
              e.dataOffset + |p| <= |data| && p == data[e.dataOffset..e.dataOffset + |p|]
  {
    if e.dataOffset >= |data| then []
    else if e.dataOffset + e.compressedSize <= |data| then data[e.dataOffset..e.dataOffset + e.compressedSize]
    else data[e.dataOffset..]
  }

  /** Every payload of a walk but the last lies wholly inside the file:
      only the last entry can be cut short on extraction. */
  lemma PayloadBeforeLastComplete(data: seq<Byte>, pos: nat, i: nat, count: nat, k: nat)
    requires k + 1 < |Walk(data, pos, i, count)|
    ensures var e := Walk(data, pos, i, count)[k];
      |Payload(data, e)| == e.compressedSize
  {
    var w := Walk(data, pos, i, count);
    WalkRecord(data, pos, i, count, k + 1);
    assert RecordStart(w, pos, k + 1) == NextRecord(w[k]);
  }

  /** The archive as the viewer holds it: `files` is the index of the last
      successful scan, `archiveOffset` where its signature was found. */
  class StubArchive {
    var files: seq<ArchiveEntry>
    var archiveOffset: nat

    constructor ()
      ensures files == [] && archiveOffset == 0
    {
      files := [];
      archiveOffset := 0;
    }

    /** `StubArchive.scan` over the file's bytes. No signature: `[]`, state
        unchanged. A cut-off PE header or section table: an error, state
        unchanged. A cut-off archive header: an error after the signature
        offset was recorded. Otherwise the walked table becomes `files`. */
    method Scan(data: seq<Byte>) returns (r: Result<seq<ArchiveEntry>, ArchiveError>)
      modifies this
      ensures FindArchive(data).Err? ==>
                r == Err(FindArchive(data).error) && files == old(files) && archiveOffset == old(archiveOffset)
      ensures FindArchive(data) == Ok(None) ==>
                r == Ok([]) && files == old(files) && archiveOffset == old(archiveOffset)
      ensures FindArchive(data).Ok? && FindArchive(data).value.Some? ==>
                var sig := FindArchive(data).value.value;
                && archiveOffset == sig
                && r == ReadTable(data, sig)
                && files == (if r.Ok? then r.value else old(files))
    {
      var overlay := LocateOverlay(data);
      if overlay.Err? {
        return Err(overlay.error);
      }
      var sigPos := IndexOf(data, Signature, overlay.value);
      if sigPos.None? {
        return Ok([]);
      }
      assert FindArchive(data) == Ok(sigPos);
      archiveOffset := sigPos.value;
      var headerSize := ReadU32(data, sigPos.value + 8);
      var fileCount := ReadU32(data, sigPos.value + 0x1C);
      if headerSize.None? || fileCount.None? {
        return Err(ArchiveHeaderTruncated);
      }
      var count := fileCount.value;
      var first := sigPos.value + headerSize.value;
      assert ReadTable(data, sigPos.value) == Ok(Walk(data, first, 0, count));
      LoadRecords(data, first, count);
      return Ok(files);
    }

    /** The `for i in range(file_count)` loop of the scan: `files` is
        emptied and each record read in turn is appended, until `count`
        records or the first record cut off by the end of the file. */
    method LoadRecords(data: seq<Byte>, first: nat, count: nat)
      modifies this
      ensures files == Walk(data, first, 0, count)
      ensures archiveOffset == old(archiveOffset)
    {
      var pos: nat := first;
      files := [];
      var i := 0;
      while i < count
        invariant 0 <= i <= count
        invariant archiveOffset == old(archiveOffset)
        invariant files + Walk(data, pos, i, count) == Walk(data, first, 0, count)
      {
        var record := ReadRecordAt(data, pos, i);
        if record.None? {
          assert Walk(data, pos, i, count) == [];
          break;
        }
        ghost var rest := Walk(data, NextRecord(record.value), i + 1, count);
        assert Walk(data, pos, i, count) == [record.value] + rest;
        assert (files + [record.value]) + rest == files + ([record.value] + rest);
        files := files + [record.value];
        pos := NextRecord(record.value);
        i := i + 1;
      }
    }

    /** `StubArchive.extract_file`: `None` past the end of the index;
        otherwise the decompressed payload, or the raw payload when
        decompression fails. */
    method ExtractFile(data: seq<Byte>, index: nat, decompress: seq<Byte> -> Option<seq<Byte>>)
      returns (r: Option<seq<Byte>>)
      ensures index >= |files| <==> r == None
      ensures index < |files| ==>
                var payload := Payload(data, files[index]);
                r == Some(if decompress(payload).Some? then decompress(payload).value else payload)
    {
      if index >= |files| {
        return None;
      }
      var compressed := Payload(data, files[index]);
      var out := decompress(compressed);
      if out.Some? {
        return Some(out.value);
      }
      return Some(compressed);
    }
  }
}
