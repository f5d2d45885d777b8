/**
 Images as they are laid out, field by field, and what the PE validator and the ARM64EC validator make of the fields.
 Field positions follow "COFF File Header", "Optional Header (Image Only)" and "Section Table (Section Headers)" of the
 Microsoft PE Format specification.
 */
module PeLayout {
  import opened Bits
  import opened Bytes
  import opened Pe
  import opened Sections
  import opened Verdict

  // ---- The container ----

  /** The fields of an image's headers, and its sections. */
  datatype Headers = Headers(at: int, machine: int, optionalSize: int, sections: seq<Section>) {
    /** Where the section table starts and ends. */
    function Table(): int { at + 24 + optionalSize }
    function Top(): int { Table() + 40 * |sections| }

    /** The image holds these fields. */
    ghost predicate In(image: seq<Byte>) {
      && |image| >= 64 && Stores(image, 0x3c, at, 4)
      && at + 24 <= |image|
      && Stores(image, at + 4, machine, 2) && Stores(image, at + 6, |sections|, 2)
      && Stores(image, at + 20, optionalSize, 2)
      && forall i :: 0 <= i < |sections| ==> Stored(image, Table() + 40 * i, sections[i])
    }
  }

  lemma HeaderFields(image: seq<Byte>, h: Headers)
    requires h.In(image)
    ensures U32(image, 0x3c) == h.at && U16(image, h.at + 4) == h.machine
    ensures U16(image, h.at + 6) == |h.sections| && U16(image, h.at + 20) == h.optionalSize
  {
    StoredIsRead(image, 0x3c, h.at);
    StoredIsRead(image, h.at + 4, h.machine);
    StoredIsRead(image, h.at + 6, |h.sections|);
    StoredIsRead(image, h.at + 20, h.optionalSize);
  }

  lemma TableReads(image: seq<Byte>, table: nat, sections: seq<Section>)
    requires forall i :: 0 <= i < |sections| ==> Stored(image, table + 40 * i, sections[i])
    requires table + |sections| * 40 <= |image|
    ensures SectionTable(image, table, |sections|) == sections
    ensures forall i :: 0 <= i < |sections| ==> SectionAt(image, table, i) == sections[i]
  {
    forall i | 0 <= i < |sections| ensures SectionAt(image, table, i) == sections[i] {
      assert table + i * 40 == table + 40 * i;
      DecodeReads(image, table + i * 40, sections[i]);
    }
  }

  /** The marks that are no numbers: "MZ", "PE\0\0", and the first two bytes of a PE32+ optional header. */
  ghost predicate Marked(image: seq<Byte>, at: int) {
    && |image| >= 2 && image[0] == 0x4d && image[1] == 0x5a
    && 0 <= at && at + 26 <= |image|
    && image[at] == 0x50 && image[at + 1] == 0x45 && image[at + 2] == 0 && image[at + 3] == 0
    && image[at + 24] == 0x0b && image[at + 25] == 0x02
  }

  lemma MarksMean(image: seq<Byte>, at: int)
    requires |image| >= 2 && 0 <= at && at + 26 <= |image|
    ensures Marked(image, at) <==>
              && image[..2] == MZ && image[at..at + 4] == SIGNATURE
              && image[at + 24..at + 26] == PE32_PLUS
  {
    assert image[..2] == [image[0], image[1]];
    assert image[at..at + 4] == [image[at], image[at + 1], image[at + 2], image[at + 3]];
    assert image[at + 24..at + 26] == [image[at + 24], image[at + 25]];
  }

  /** The file bytes of a section lie behind the headers and inside the file. */
  ghost predicate BytesInside(s: Section, top: int, fileSize: int) {
    s.rawSize == 0 || (top <= s.rawOffset && s.rawOffset + s.rawSize <= fileSize)
  }

  lemma TableMeans(image: seq<Byte>, table: nat, sections: seq<Section>)
    requires forall i :: 0 <= i < |sections| ==> Stored(image, table + 40 * i, sections[i])
    ensures SectionTableAt(image, table, |sections|) <==>
              && sections != []
              && forall i :: 0 <= i < |sections| ==> BytesInside(sections[i], table + 40 * |sections|, |image|)
  {
    if sections != [] {
      assert Stored(image, table + 40 * (|sections| - 1), sections[|sections| - 1]);
      TableReads(image, table, sections);
    }
  }

  /** What the fields have to be. */
  ghost predicate Accepted(image: seq<Byte>, expected: int, h: Headers) {
    && 64 <= h.at && Marked(image, h.at)
    && h.machine == (if expected == 0xA641 then 0x8664 else expected)
    && h.optionalSize >= 2 && h.sections != []
    && forall i :: 0 <= i < |h.sections| ==> BytesInside(h.sections[i], h.Top(), |image|)
  }

  lemma PartsMean(image: seq<Byte>, expected: int, h: Headers)
    requires |image| >= 64 && U32(image, 0x3c) == h.at && h.at + 24 <= |image|
    requires U16(image, h.at + 4) == h.machine
    requires U16(image, h.at + 6) == |h.sections| && U16(image, h.at + 20) == h.optionalSize
    requires SectionTableAt(image, h.Table(), |h.sections|) <==>
               && h.sections != []
               && forall i :: 0 <= i < |h.sections| ==> BytesInside(h.sections[i], h.Top(), |image|)
    ensures ContainerWellFormed(image, expected) <==> Accepted(image, expected, h)
  {
    if h.optionalSize >= 2 && SectionTableAt(image, h.Table(), |h.sections|) {
      MarksMean(image, h.at);
    }
  }

  /**
   An image is taken exactly if it is marked as one, has the machine value that linked images carry for the expected
   machine, and has sections whose table and bytes lie in the file.
   */
  lemma ContainerReads(image: seq<Byte>, expected: int, h: Headers)
    requires h.In(image)
    ensures ContainerWellFormed(image, expected) <==> Accepted(image, expected, h)
  {
    HeaderFields(image, h);
    TableMeans(image, h.Table(), h.sections);
    PartsMean(image, expected, h);
  }

  lemma ContainerHolds(image: seq<Byte>, expected: int, h: Headers)
    requires h.In(image) && ContainerWellFormed(image, expected)
    ensures h.at + 24 + h.optionalSize <= |image|
    ensures ContainerOf(image, expected) == Container(image[h.at + 24..h.at + 24 + h.optionalSize], h.sections)
  {
    HeaderFields(image, h);
    TableReads(image, h.Table(), h.sections);
  }

  /** The verdict on an image whose headers were written as `h`; only ARM64EC modules need the metadata. */
  lemma ImageReads(image: seq<Byte>, expected: int, h: Headers)
    requires h.In(image)
    ensures WellFormed(image, expected) <==>
              && Accepted(image, expected, h) && h.at + 24 + h.optionalSize <= |image|
              && (expected == 0xA641 ==>
                    Arm64ecWellFormed(image, image[h.at + 24..h.at + 24 + h.optionalSize], h.sections))
  {
    ContainerReads(image, expected, h);
    if ContainerWellFormed(image, expected) {
      ContainerHolds(image, expected, h);
      VerdictOf(image, expected, image[h.at + 24..h.at + 24 + h.optionalSize], h.sections);
    }
  }

  lemma VerdictOf(image: seq<Byte>, expected: int, optional: seq<Byte>, sections: seq<Section>)
    requires ContainerWellFormed(image, expected) && ContainerOf(image, expected) == Container(optional, sections)
    ensures WellFormed(image, expected) <==> (expected == 0xA641 ==> Arm64ecWellFormed(image, optional, sections))
  {
  }

  // ---- The ARM64EC metadata ----

  /** What the optional header says: image base, alignment, image size, and the load configuration directory. */
  datatype Directory = Directory(base: int, alignment: int, imageSize: int, count: int, rva: int, size: int) {
    ghost predicate In(optional: seq<Byte>) {
      && |optional| >= 200
      && Stores(optional, 24, base, 8) && Stores(optional, 32, alignment, 4) && Stores(optional, 56, imageSize, 4)
      && Stores(optional, 108, count, 4) && Stores(optional, 192, rva, 4) && Stores(optional, 196, size, 4)
    }
  }

  lemma DirectoryFields(optional: seq<Byte>, d: Directory)
    requires d.In(optional)
    ensures U64(optional, 24) == d.base && U32(optional, 32) == d.alignment && U32(optional, 56) == d.imageSize
    ensures U32(optional, 108) == d.count && U32(optional, 192) == d.rva && U32(optional, 196) == d.size
  {
    StoredIsRead(optional, 24, d.base);
    StoredIsRead(optional, 32, d.alignment);
    StoredIsRead(optional, 56, d.imageSize);
    StoredIsRead(optional, 108, d.count);
    StoredIsRead(optional, 192, d.rva);
    StoredIsRead(optional, 196, d.size);
  }

  /** The load configuration from `at` on: its own idea of its size, and the address of the CHPE metadata. */
  ghost predicate ConfigIn(image: seq<Byte>, at: int, declared: int, metadataVa: int) {
    Stores(image, at, declared, 4) && Stores(image, at + 200, metadataVa, 8)
  }

  /** What the load configuration in the file leaves to decide. */
  ghost predicate ConfigDecides(image: seq<Byte>, sections: seq<Section>, d: Directory, declared: int, metadataVa: int)
  {
    && d.count > 10 && IsPowerOfTwo(d.alignment) && d.imageSize > 0
    && 208 <= d.size && 208 <= declared <= d.size
    && ChpeWellFormed(image, sections, d.alignment, d.imageSize, metadataVa - d.base)
  }

  lemma ConfigMeans(image: seq<Byte>, optional: seq<Byte>, sections: seq<Section>, d: Directory, config: int)
    requires |optional| >= 200
    requires U64(optional, 24) == d.base && U32(optional, 32) == d.alignment && U32(optional, 56) == d.imageSize
    requires U32(optional, 108) == d.count && U32(optional, 192) == d.rva && U32(optional, 196) == d.size
    requires Resolve(sections, d.rva, d.size, false) == Ok(config)
    requires 0 <= config && config + d.size <= |image| && config + 208 <= |image|
    ensures Arm64ecWellFormed(image, optional, sections)
            <==> ConfigDecides(image, sections, d, U32(image, config), U64(image, config + 200))
  {
    if d.count > 10 && IsPowerOfTwo(d.alignment) && d.imageSize > 0 && LoadConfigWellFormed(image, d.size, config) {
      OnlyChpeIsLeft(image, optional, sections, config);
    }
  }

  lemma ConfigFields(image: seq<Byte>, config: int, declared: int, metadataVa: int)
    requires ConfigIn(image, config, declared, metadataVa)
    ensures 0 <= config && config + 208 <= |image|
    ensures U32(image, config) == declared && U64(image, config + 200) == metadataVa
  {
    StoredIsRead(image, config, declared);
    StoredIsRead(image, config + 200, metadataVa);
  }

  /** A directory whose load configuration is in the file decides everything up to the CHPE metadata. */
  lemma ConfigReads(image: seq<Byte>, optional: seq<Byte>, sections: seq<Section>, d: Directory,
                    config: int, declared: int, metadataVa: int)
    requires d.In(optional) && ConfigIn(image, config, declared, metadataVa) && config + d.size <= |image|
    requires Resolve(sections, d.rva, d.size, false) == Ok(config)
    ensures Arm64ecWellFormed(image, optional, sections)
            <==> ConfigDecides(image, sections, d, declared, metadataVa)
  {
    DirectoryFields(optional, d);
    ConfigFields(image, config, declared, metadataVa);
    ConfigMeans(image, optional, sections, d, config);
  }

  /** The CHPE metadata from `at` on. */
  datatype Metadata = Metadata(version: int, codeMap: int, count: int) {
    ghost predicate In(image: seq<Byte>, at: int) {
      && 0 <= at && at + 80 <= |image|
      && Stores(image, at, version, 4) && Stores(image, at + 4, codeMap, 4) && Stores(image, at + 8, count, 4)
    }
  }

  lemma MetadataFields(image: seq<Byte>, at: int, m: Metadata)
    requires m.In(image, at)
    ensures U32(image, at) == m.version && U32(image, at + 4) == m.codeMap && U32(image, at + 8) == m.count
  {
    StoredIsRead(image, at, m.version);
    StoredIsRead(image, at + 4, m.codeMap);
    StoredIsRead(image, at + 8, m.count);
  }

  ghost predicate RangeIn(image: seq<Byte>, at: int, r: CodeRange) {
    Stores(image, at, r.word, 4) && Stores(image, at + 4, r.length, 4)
  }

  /** The code map from `table` on holds these entries. */
  ghost predicate MapIn(image: seq<Byte>, table: int, ranges: seq<CodeRange>) {
    && 0 <= table && table + 8 * |ranges| <= |image|
    && forall i :: 0 <= i < |ranges| ==> RangeIn(image, table + 8 * i, ranges[i])
  }

  lemma RangesRead(image: seq<Byte>, table: nat, ranges: seq<CodeRange>)
    requires MapIn(image, table, ranges)
    ensures Ranges(image, table, |ranges|) == ranges
  {
    forall i | 0 <= i < |ranges| ensures RangeAt(image, table, i) == ranges[i] {
      assert table + 8 * i == table + i * 8;
      StoredIsRead(image, table + i * 8, ranges[i].word);
      StoredIsRead(image, table + i * 8 + 4, ranges[i].length);
    }
  }

  /** Metadata and a code map that are in the file decide the rest. */
  lemma MetadataReads(image: seq<Byte>, sections: seq<Section>, alignment: int, imageSize: int, rva: int,
                      at: int, m: Metadata, table: int, ranges: seq<CodeRange>)
    requires alignment > 0
    requires Resolve(sections, rva, 80, false) == Ok(at) && m.In(image, at) && m.count == |ranges|
    requires Resolve(sections, m.codeMap, m.count * 8, false) == Ok(table) && MapIn(image, table, ranges)
    ensures ChpeWellFormed(image, sections, alignment, imageSize, rva) <==>
              && rva > 0 && m.version in {1, 2} && m.count > 0
              && (m.version == 2 ==> Resolve(sections, rva, 92, false).Ok?)
              && (forall i :: 0 <= i < |ranges| ==> RangeWellFormed(sections, alignment, imageSize, ranges[i]))
              && (exists i :: 0 <= i < |ranges| && ranges[i].word % 4 == 1)
  {
    MetadataFields(image, at, m);
    RangesRead(image, table, ranges);
  }

  /** The address lies in an executable section, or in the alignment block that the section's end falls in. */
  ghost predicate ExecutableAt(sections: seq<Section>, alignment: int, address: int)
    requires alignment > 0
  {
    exists i :: 0 <= i < |sections| && ReachesTo(sections[i], address - address % alignment, address)
  }

  /** An executable section that starts no later than the address and ends, in memory or in the file, behind `block`. */
  ghost predicate ReachesTo(s: Section, block: int, address: int) {
    && s.flags / 0x2000_0000 % 2 == 1 && s.start <= address
    && (block < s.start + s.virtualSize || block < s.start + s.rawSize)
  }

  /**
   An entry is accepted exactly if its two low bits name a type, it is not empty and ends in the image, its first and
   last byte are executable bytes of the file, and every address in between is executable.
   */
  lemma RangeMeans(sections: seq<Section>, alignment: int, imageSize: int, word: int, length: int)
    requires alignment > 0
    ensures var start := word - word % 4;
            RangeWellFormed(sections, alignment, imageSize, CodeRange(word, length)) <==>
              && word % 4 != 3 && length > 0 && start + length <= imageSize
              && Resolve(sections, start, 1, true).Ok? && Resolve(sections, start + length - 1, 1, true).Ok?
              && forall address :: start <= address < start + length ==> ExecutableAt(sections, alignment, address)
  {
    forall address
      ensures InExecutableExtent(sections, alignment, address) <==> ExecutableAt(sections, alignment, address)
    {
      ExtentMeans(sections, alignment, address);
    }
  }

  lemma ExtentMeans(sections: seq<Section>, alignment: int, address: int)
    requires alignment > 0
    ensures InExecutableExtent(sections, alignment, address) <==> ExecutableAt(sections, alignment, address)
  {
    forall i | 0 <= i < |sections|
      ensures ExtentContains(sections[i], alignment, address)
              <==> ReachesTo(sections[i], address - address % alignment, address)
    {
      ExecutableIsBit29(sections[i]);
    }
  }
}
