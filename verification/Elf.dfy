/** The ELF64 AArch64 validator (scripts/generate-runtime-manifest.py:358-418). */
module Elf {
  import opened Bytes
  import opened Verdict

  const HEADER_SIZE: nat := 64
  const ENTRY_SIZE: nat := 56
  const PT_LOAD := 1
  const MAGIC: seq<Byte> := [0x7f, 0x45, 0x4c, 0x46]

  /** "System V gABI", chapter 4: identification bytes, then the fields the loader needs. */
  ghost predicate HeaderWellFormed(image: seq<Byte>) {
    && |image| >= HEADER_SIZE
    && image[..4] == MAGIC
    && image[4] == 2 && image[5] == 1 && image[6] == 1
    && U16(image, 16) in {2, 3}
    && U16(image, 18) == 183
    && U32(image, 20) == 1
    && U16(image, 52) == HEADER_SIZE
    && U16(image, 54) == ENTRY_SIZE
    && U16(image, 56) > 0
    && HEADER_SIZE <= U64(image, 32)
    && U64(image, 32) + U16(image, 56) * 56 <= |image|
  }

  /** The file position of program header `i`, "System V gABI", chapter 5. */
  function EntryAt(image: seq<Byte>, i: nat): nat
    requires |image| >= HEADER_SIZE
  {
    U64(image, 32) + i * 56
  }

  datatype Segment = Segment(kind: int, fileOffset: int, fileBytes: int, memoryBytes: int) {
    predicate Inside(fileSize: int) {
      fileOffset + fileBytes <= fileSize && fileBytes <= memoryBytes
    }
  }

  function SegmentAt(image: seq<Byte>, at: nat): Segment
    requires at + ENTRY_SIZE <= |image|
  {
    Segment(U32(image, at), U64(image, at + 8), U64(image, at + 32), U64(image, at + 40))
  }

  /** A loadable AArch64 image all of whose program headers and segment bytes lie inside the file. */
  ghost predicate WellFormed(image: seq<Byte>) {
    && HeaderWellFormed(image)
    && (forall i :: 0 <= i < U16(image, 56) ==> SegmentAt(image, EntryAt(image, i)).Inside(|image|))
    && (exists i :: 0 <= i < U16(image, 56) && SegmentAt(image, EntryAt(image, i)).kind == PT_LOAD)
  }

  // ---- What the fields are ----

  lemma Identified(image: seq<Byte>)
    requires |image| >= 64
    ensures image[..4] == MAGIC <==> image[0] == 0x7f && image[1] == 0x45 && image[2] == 0x4c && image[3] == 0x46
  {
    assert image[..4] == [image[0], image[1], image[2], image[3]];
  }

  /** The header's fields from byte 16 on ("<HHIQQQIHHHHHH"). */
  datatype Header = Header(
    kind: int, machine: int, version: int, table: int, headerSize: int, entrySize: int, count: int)
  {
    ghost predicate Stored(image: seq<Byte>) {
      && |image| >= 64
      && Stores(image, 16, kind, 2) && Stores(image, 18, machine, 2) && Stores(image, 20, version, 4)
      && Stores(image, 32, table, 8) && Stores(image, 52, headerSize, 2)
      && Stores(image, 54, entrySize, 2) && Stores(image, 56, count, 2)
    }
  }

  lemma HeaderFields(image: seq<Byte>, h: Header)
    requires h.Stored(image)
    ensures U16(image, 16) == h.kind && U16(image, 18) == h.machine && U32(image, 20) == h.version
    ensures U64(image, 32) == h.table && U16(image, 52) == h.headerSize
    ensures U16(image, 54) == h.entrySize && U16(image, 56) == h.count
  {
    StoredIsRead(image, 16, h.kind);
    StoredIsRead(image, 18, h.machine);
    StoredIsRead(image, 20, h.version);
    StoredIsRead(image, 32, h.table);
    StoredIsRead(image, 52, h.headerSize);
    StoredIsRead(image, 54, h.entrySize);
    StoredIsRead(image, 56, h.count);
  }

  /** What a header has to be, whose fields were written as `h`. */
  lemma HeaderReads(image: seq<Byte>, h: Header)
    requires h.Stored(image)
    ensures HeaderWellFormed(image) <==>
              && image[0] == 0x7f && image[1] == 0x45 && image[2] == 0x4c && image[3] == 0x46
              && image[4] == 2 && image[5] == 1 && image[6] == 1
              && h.kind in {2, 3} && h.machine == 183 && h.version == 1
              && h.headerSize == 64 && h.entrySize == 56 && h.count > 0
              && 64 <= h.table && h.table + 56 * h.count <= |image|
  {
    Identified(image);
    HeaderFields(image, h);
  }

  /** The 56 bytes from `at` on ("<IIQQQQQQ") are the program header of `s`. */
  ghost predicate Stored(image: seq<Byte>, at: int, s: Segment) {
    && 0 <= at && at + 56 <= |image|
    && Stores(image, at, s.kind, 4) && Stores(image, at + 8, s.fileOffset, 8)
    && Stores(image, at + 32, s.fileBytes, 8) && Stores(image, at + 40, s.memoryBytes, 8)
  }

  lemma SegmentReads(image: seq<Byte>, at: nat, s: Segment)
    requires Stored(image, at, s)
    ensures SegmentAt(image, at) == s
  {
    StoredIsRead(image, at, s.kind);
    StoredIsRead(image, at + 8, s.fileOffset);
    StoredIsRead(image, at + 32, s.fileBytes);
    StoredIsRead(image, at + 40, s.memoryBytes);
  }

  /** The program table from `table` on holds these segments. */
  ghost predicate TableStored(image: seq<Byte>, table: int, segments: seq<Segment>) {
    && Stores(image, 32, table, 8) && Stores(image, 56, |segments|, 2)
    && forall i :: 0 <= i < |segments| ==> Stored(image, table + 56 * i, segments[i])
  }

  lemma TableReads(image: seq<Byte>, table: nat, segments: seq<Segment>)
    requires HeaderWellFormed(image) && TableStored(image, table, segments)
    ensures U16(image, 56) == |segments|
    ensures forall i :: 0 <= i < |segments| ==> SegmentAt(image, EntryAt(image, i)) == segments[i]
  {
    StoredIsRead(image, 32, table);
    StoredIsRead(image, 56, |segments|);
    forall i | 0 <= i < |segments| ensures SegmentAt(image, EntryAt(image, i)) == segments[i] {
      assert EntryAt(image, i) == table + 56 * i;
      SegmentReads(image, table + 56 * i, segments[i]);
    }
  }

  /** Behind a good header, what decides is the segments whose program headers stand in the table. */
  lemma SegmentsDecide(image: seq<Byte>, table: nat, segments: seq<Segment>)
    requires HeaderWellFormed(image) && TableStored(image, table, segments)
    ensures WellFormed(image) <==>
              && (forall i :: 0 <= i < |segments| ==>
                    && segments[i].fileOffset + segments[i].fileBytes <= |image|
                    && segments[i].fileBytes <= segments[i].memoryBytes)
              && (exists i :: 0 <= i < |segments| && segments[i].kind == 1)
  {
    TableReads(image, table, segments);
    SegmentsAre(image, segments);
  }

  lemma SegmentsAre(image: seq<Byte>, segments: seq<Segment>)
    requires HeaderWellFormed(image) && U16(image, 56) == |segments|
    requires forall i :: 0 <= i < |segments| ==> SegmentAt(image, EntryAt(image, i)) == segments[i]
    ensures WellFormed(image) <==>
              && (forall i :: 0 <= i < |segments| ==> segments[i].Inside(|image|))
              && (exists i :: 0 <= i < |segments| && segments[i].kind == 1)
  {
    if i :| 0 <= i < |segments| && segments[i].kind == 1 {
      assert SegmentAt(image, EntryAt(image, i)).kind == 1;
    }
    if WellFormed(image) {
      forall i | 0 <= i < |segments| ensures segments[i].Inside(|image|) {
        assert SegmentAt(image, EntryAt(image, i)).Inside(|image|);
      }
    }
  }

  method ReadHeader(image: seq<Byte>) returns (r: Checked<(nat, nat)>)
    ensures r.Ok? <==> HeaderWellFormed(image)
    ensures r.Ok? ==> r.value == (U64(image, 32), U16(image, 56))
    ensures r.Rejected? ==> r.why in {NotElf64, BadElfHeader}
  {
    var header := Read(image, 0, HEADER_SIZE);
    if |header| < HEADER_SIZE || header[..4] != MAGIC || header[4] != 2 || header[5] != 1 || header[6] != 1 {
      return Rejected(NotElf64);
    }
    assert header == image[0..HEADER_SIZE];
    SliceFields(image, 0, HEADER_SIZE);
    var elfType, machine, version := U16(header, 16), U16(header, 18), U32(header, 20);
    var programOffset := U64(header, 32);
    var headerSize, entrySize, count := U16(header, 52), U16(header, 54), U16(header, 56);
    if elfType !in {2, 3} || machine != 183 || version != 1 || headerSize != HEADER_SIZE
       || entrySize != ENTRY_SIZE || count == 0 || programOffset < HEADER_SIZE
       || programOffset + entrySize * count > |image| {
      return Rejected(BadElfHeader);
    }
    return Ok((programOffset, count));
  }

  lemma EntryBytes(image: seq<Byte>, at: nat)
    requires at + ENTRY_SIZE <= |image|
    ensures SegmentAt(image[at..at + ENTRY_SIZE], 0) == SegmentAt(image, at)
  {
    SliceFields(image, at, at + ENTRY_SIZE);
  }

  /** The first `i` segments are inside the file. */
  ghost predicate InsideBefore(image: seq<Byte>, i: nat)
    requires HeaderWellFormed(image) && i <= U16(image, 56)
  {
    forall j :: 0 <= j < i ==> SegmentAt(image, EntryAt(image, j)).Inside(|image|)
  }

  /** One of the first `i` segments is loadable. */
  ghost predicate LoadableBefore(image: seq<Byte>, i: nat)
    requires HeaderWellFormed(image) && i <= U16(image, 56)
  {
    exists j :: 0 <= j < i && SegmentAt(image, EntryAt(image, j)).kind == PT_LOAD
  }

  lemma OneMoreSegment(image: seq<Byte>, i: nat)
    requires HeaderWellFormed(image) && i < U16(image, 56)
    ensures EntryAt(image, i) + ENTRY_SIZE <= |image|
    ensures InsideBefore(image, i + 1)
            <==> InsideBefore(image, i) && SegmentAt(image, EntryAt(image, i)).Inside(|image|)
    ensures LoadableBefore(image, i + 1)
            <==> LoadableBefore(image, i) || SegmentAt(image, EntryAt(image, i)).kind == PT_LOAD
  {
  }

  /** What is read of an entry lies in the table, so it is never short. */
  lemma EntryIsRead(image: seq<Byte>, at: nat)
    requires at + ENTRY_SIZE <= |image|
    ensures Read(image, at, ENTRY_SIZE) == image[at..at + ENTRY_SIZE]
    ensures SegmentAt(Read(image, at, ENTRY_SIZE), 0) == SegmentAt(image, at)
  {
    EntryBytes(image, at);
  }

  method Validate(image: seq<Byte>) returns (r: Checked<()>)
    ensures r.Ok? <==> WellFormed(image)
    ensures r != Rejected(TruncatedProgramTable)
    ensures r == Rejected(NoLoadSegment) ==>
              && HeaderWellFormed(image)
              && forall i :: 0 <= i < U16(image, 56) ==> SegmentAt(image, EntryAt(image, i)).kind != PT_LOAD
  {
    var table :- ReadHeader(image);
    var (programOffset, count) := table;
    var hasLoadSegment := false;
    var position := programOffset;
    for i := 0 to count
      invariant position == EntryAt(image, i)
      invariant InsideBefore(image, i) && (hasLoadSegment <==> LoadableBefore(image, i))
    {
      OneMoreSegment(image, i);
      EntryIsRead(image, position);
      var entry := Read(image, position, ENTRY_SIZE);
      if |entry| != ENTRY_SIZE {
        return Rejected(TruncatedProgramTable);
      }
      var segment := SegmentAt(entry, 0);
      position := position + |entry|;
      if segment.fileOffset + segment.fileBytes > |image| || segment.memoryBytes < segment.fileBytes {
        assert !SegmentAt(image, EntryAt(image, i)).Inside(|image|);
        return Rejected(BadSegment);
      }
      hasLoadSegment := hasLoadSegment || segment.kind == PT_LOAD;
    }
    if !hasLoadSegment {
      return Rejected(NoLoadSegment);
    }
    return Ok(());
  }
}
