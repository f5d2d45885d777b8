/** Images that the validators accept, so that their predicates, and all that is built on them, can hold. */
module Samples {
  import opened Bits
  import opened Bytes
  import opened Sections
  import opened Verdict
  import Elf
  import Pe

  // ---- Small fields ----

  lemma {:induction false} ZeroField(b: seq<Byte>, at: nat, size: nat)
    requires at + size <= |b| && forall i :: at <= i < at + size ==> b[i] == 0
    ensures Field(b, at, size) == 0
    decreases size
  {
    if size > 0 {
      ZeroField(b, at + 1, size - 1);
    }
  }

  /** A field with nothing above its two low bytes. */
  lemma LowField(b: seq<Byte>, at: nat, size: nat)
    requires 2 <= size && at + size <= |b| && forall i :: at + 2 <= i < at + size ==> b[i] == 0
    ensures Field(b, at, size) == (b[at] as int) + 0x100 * (b[at + 1] as int)
  {
    ZeroField(b, at + 2, size - 2);
    assert Field(b, at, size) == b[at] + 0x100 * Field(b, at + 1, size - 1);
    assert Field(b, at + 1, size - 1) == b[at + 1] + 0x100 * Field(b, at + 2, size - 2);
  }

  /** The number that two bytes hold. */
  function Low(b: seq<Byte>, at: nat): int
    requires at + 2 <= |b|
  {
    var low: int, high: int := b[at], b[at + 1];
    low + 0x100 * high
  }

  lemma Low16(b: seq<Byte>, at: nat)
    requires at + 2 <= |b|
    ensures U16(b, at) == Low(b, at)
  {
    LowField(b, at, 2);
  }

  lemma Low32(b: seq<Byte>, at: nat)
    requires at + 4 <= |b| && forall i :: at + 2 <= i < at + 4 ==> b[i] == 0
    ensures U32(b, at) == Low(b, at)
  {
    LowField(b, at, 4);
  }

  lemma Low64(b: seq<Byte>, at: nat)
    requires at + 8 <= |b| && forall i :: at + 2 <= i < at + 8 ==> b[i] == 0
    ensures U64(b, at) == Low(b, at)
  {
    LowField(b, at, 8);
  }

  // ---- An AArch64 ELF image ----

  function ElfByte(i: nat): Byte {
    if i == 0 then 0x7f else if i == 1 then 0x45 else if i == 2 then 0x4c else if i == 3 then 0x46
    else if i == 4 then 2 else if i == 5 then 1 else if i == 6 then 1
    else if i == 16 then 2 else if i == 18 then 183 else if i == 20 then 1
    else if i == 32 then 64 else if i == 52 then 64 else if i == 54 then 56 else if i == 56 then 1
    else if i == 64 then 1
    else 0
  }

  /** A header and one loadable segment without bytes. */
  function ElfSample(): (image: seq<Byte>)
    ensures |image| == 120 && forall i :: 0 <= i < |image| ==> image[i] == ElfByte(i)
  {
    seq(120, i requires 0 <= i < 120 => ElfByte(i))
  }

  lemma ElfHeaderFields(image: seq<Byte>)
    requires image == ElfSample()
    ensures U16(image, 16) == 2 && U16(image, 18) == 183 && U32(image, 20) == 1 && U64(image, 32) == 64
    ensures U16(image, 52) == 64 && U16(image, 54) == 56 && U16(image, 56) == 1
  {
    Low16(image, 16);
    Low16(image, 18);
    Low32(image, 20);
    Low64(image, 32);
    Low16(image, 52);
    Low16(image, 54);
    Low16(image, 56);
  }

  lemma ElfSegment(image: seq<Byte>)
    requires image == ElfSample()
    ensures Elf.SegmentAt(image, 64) == Elf.Segment(1, 0, 0, 0)
  {
    Low32(image, 64);
    Low64(image, 72);
    Low64(image, 96);
    Low64(image, 104);
  }

  lemma ElfSampleIsAccepted()
    ensures Elf.WellFormed(ElfSample())
  {
    var image := ElfSample();
    assert image[..4] == Elf.MAGIC && image[4] == 2 && image[5] == 1 && image[6] == 1;
    ElfHeaderFields(image);
    ElfSegment(image);
    OneSegmentSuffices(image);
  }

  lemma OneSegmentSuffices(image: seq<Byte>)
    requires Elf.HeaderWellFormed(image) && U16(image, 56) == 1 && U64(image, 32) == 64
    requires Elf.SegmentAt(image, 64) == Elf.Segment(1, 0, 0, 0)
    ensures Elf.WellFormed(image)
  {
    assert Elf.EntryAt(image, 0) == 64;
  }

  // ---- An ARM64 PE image ----

  function PeByte(i: nat): Byte {
    if i == 0 then 0x4d else if i == 1 then 0x5a else if i == 0x3c then 64
    else if i == 64 then 0x50 else if i == 65 then 0x45
    else if i == 68 then 0x64 else if i == 69 then 0xAA
    else if i == 70 then 1 else if i == 84 then 2
    else if i == 88 then 0x0b else if i == 89 then 0x02 else if i == 98 then 1
    else 0
  }

  /** The headers, the first two bytes of an optional header, and one section of one byte that is not in the file. */
  function PeSample(): (image: seq<Byte>)
    ensures |image| == 130 && forall i :: 0 <= i < |image| ==> image[i] == PeByte(i)
  {
    seq(130, i requires 0 <= i < 130 => PeByte(i))
  }

  lemma PeFields(image: seq<Byte>)
    requires image == PeSample()
    ensures U32(image, 0x3c) == 64 && U16(image, 68) == 0xAA64 && U16(image, 70) == 1 && U16(image, 84) == 2
    ensures image[..2] == Pe.MZ && image[64..68] == Pe.SIGNATURE && image[88..90] == Pe.PE32_PLUS
  {
    Low32(image, 0x3c);
    Low16(image, 68);
    Low16(image, 70);
    Low16(image, 84);
  }

  lemma PeSection(image: seq<Byte>)
    requires image == PeSample()
    ensures Pe.SectionAt(image, 90, 0).virtualSize == 1 && Pe.SectionAt(image, 90, 0).rawSize == 0
  {
    SliceFields(image, 90, 130);
    Low32(image, 98);
    Low32(image, 106);
  }

  lemma PeSampleIsAccepted()
    ensures Pe.WellFormed(PeSample(), 0xAA64)
  {
    var image := PeSample();
    PeFields(image);
    PeSection(image);
    OneSection(image, 0xAA64, 2);
  }

  lemma OneSection(image: seq<Byte>, expected: int, optionalSize: nat)
    requires |image| >= 64 && image[..2] == Pe.MZ && U32(image, 0x3c) == 64
    requires Pe.CoffHeaderAt(image, expected, 64) && U16(image, 70) == 1 && U16(image, 84) == optionalSize >= 2
    requires 88 + optionalSize + 40 <= |image| && image[88..90] == Pe.PE32_PLUS
    requires PayloadInside(Pe.SectionAt(image, 88 + optionalSize, 0), 88 + optionalSize + 40, |image|)
    ensures Pe.ContainerWellFormed(image, expected)
    ensures Pe.ContainerOf(image, expected)
         == Pe.Container(image[88..88 + optionalSize], [Pe.SectionAt(image, 88 + optionalSize, 0)])
  {
    assert Pe.SectionTableAt(image, 88 + optionalSize, 1);
    assert Pe.SectionTable(image, 88 + optionalSize, 1) == [Pe.SectionAt(image, 88 + optionalSize, 0)];
  }

  // ---- An ARM64EC image ----

  function EcByte(i: nat): Byte {
    if i < 88 then EcHeaderByte(i) else if i < 328 then EcTableByte(i) else EcPayloadByte(i)
  }

  function EcHeaderByte(i: nat): Byte {
    if i == 0 then 0x4d else if i == 1 then 0x5a else if i == 0x3c then 64
    else if i == 64 then 0x50 else if i == 65 then 0x45
    else if i == 68 then 0x64 else if i == 69 then 0x86
    else if i == 70 then 1 else if i == 84 then 200
    else 0
  }

  /** The optional header from 88 on, and one section of 512 bytes that may be executed, from 288 on. */
  function EcTableByte(i: nat): Byte {
    if i == 88 then 0x0b else if i == 89 then 0x02
    else if i == 121 then 0x10 else if i == 145 then 0x20 else if i == 196 then 11
    else if i == 281 then 0x10 else if i == 284 then 208
    else if i == 297 then 0x02 else if i == 301 then 0x10 else if i == 305 then 0x02
    else if i == 308 then 0x48 else if i == 309 then 0x01 else if i == 327 then 0x20
    else 0
  }

  /** The load configuration from 328 on, the CHPE metadata from 536 on, the code map from 616 on. */
  function EcPayloadByte(i: nat): Byte {
    if i == 328 then 208 else if i == 528 then 0xD0 else if i == 529 then 0x10
    else if i == 536 then 1 else if i == 540 then 0x20 else if i == 541 then 0x11 else if i == 544 then 1
    else if i == 616 then 0x31 else if i == 617 then 0x11 else if i == 620 then 8
    else 0
  }

  function EcSample(): (image: seq<Byte>)
    ensures |image| == 840 && forall i :: 0 <= i < |image| ==> image[i] == EcByte(i)
  {
    seq(840, i requires 0 <= i < 840 => EcByte(i))
  }

  const EC_SECTION: Section := Section(512, 0x1000, 512, 328, MEM_EXECUTE)

  lemma EcFlags(image: seq<Byte>)
    requires image == EcSample()
    ensures U32(image, 324) == MEM_EXECUTE
  {
    assert Field(image, 324, 4) == image[324] + 0x100 * Field(image, 325, 3);
    assert Field(image, 325, 3) == image[325] + 0x100 * Field(image, 326, 2);
    Low16(image, 326);
  }

  lemma EcSectionDecodes(image: seq<Byte>)
    requires image == EcSample()
    ensures Pe.SectionAt(image, 288, 0) == EC_SECTION
  {
    SliceFields(image, 288, 328);
    Low32(image, 296);
    Low32(image, 300);
    Low32(image, 304);
    Low32(image, 308);
    EcFlags(image);
  }

  lemma EcCoffFields(image: seq<Byte>)
    requires image == EcSample()
    ensures U32(image, 0x3c) == 64 && U16(image, 68) == Pe.AMD64 && U16(image, 70) == 1 && U16(image, 84) == 200
    ensures image[..2] == Pe.MZ && image[64..68] == Pe.SIGNATURE && image[88..90] == Pe.PE32_PLUS
  {
    Low32(image, 0x3c);
    Low16(image, 68);
    Low16(image, 70);
    Low16(image, 84);
  }

  lemma EcContainer(image: seq<Byte>)
    requires image == EcSample()
    ensures Pe.ContainerWellFormed(image, Pe.ARM64EC_OBJECT)
    ensures Pe.ContainerOf(image, Pe.ARM64EC_OBJECT) == Pe.Container(image[88..288], [EC_SECTION])
  {
    EcCoffFields(image);
    EcSectionDecodes(image);
    OneSection(image, Pe.ARM64EC_OBJECT, 200);
  }

  lemma EcResolves(rva: int, size: int, executable: bool)
    requires 0 < size && 0x1000 <= rva && rva + size <= 0x1200
    ensures Resolve([EC_SECTION], rva, size, executable) == Ok(328 + rva - 0x1000)
  {
    ExecutableIsBit29(EC_SECTION);
    assert OnlyMapping([EC_SECTION], rva, size, executable, 0);
  }

  lemma EcRange(image: seq<Byte>)
    requires image == EcSample()
    ensures Pe.RangeAt(image, 616, 0) == Pe.CodeRange(0x1131, 8)
  {
    Low32(image, 616);
    Low32(image, 620);
  }

  lemma EcRangeIsWellFormed(r: Pe.CodeRange)
    requires r == Pe.CodeRange(0x1131, 8)
    ensures Pe.RangesWellFormed([EC_SECTION], 0x1000, 0x2000, [r])
  {
    var sections := [EC_SECTION];
    assert r.Kind() == 1 && r.Start() == 0x1130 && r.End() == 0x1138;
    EcResolves(0x1130, 1, true);
    EcResolves(0x1137, 1, true);
    ExecutableIsBit29(EC_SECTION);
    forall address | 0x1130 <= address < 0x1138 ensures Pe.InExecutableExtent(sections, 0x1000, address) {
      assert Pe.ExtentContains(sections[0], 0x1000, address);
    }
    assert [r][0].Kind() == 1;
  }

  lemma EcCodeMap(image: seq<Byte>)
    requires image == EcSample()
    ensures Pe.CodeMapWellFormed(image, [EC_SECTION], 0x1000, 0x2000, 616, 1)
  {
    EcRange(image);
    var r := Pe.RangeAt(image, 616, 0);
    EcRangeIsWellFormed(r);
    assert Pe.Ranges(image, 616, 1) == [r];
  }

  lemma EcMetadataFields(image: seq<Byte>)
    requires image == EcSample()
    ensures U32(image, 536) == 1 && U32(image, 540) == 0x1120 && U32(image, 544) == 1
  {
    Low32(image, 536);
    Low32(image, 540);
    Low32(image, 544);
  }

  lemma EcMetadata(image: seq<Byte>)
    requires image == EcSample()
    ensures Pe.ChpeWellFormed(image, [EC_SECTION], 0x1000, 0x2000, 0x10D0)
  {
    EcResolves(0x10D0, 80, false);
    EcMetadataFields(image);
    EcResolves(0x1120, 8, false);
    EcCodeMap(image);
  }

  lemma EcOptionalFields(image: seq<Byte>)
    requires image == EcSample()
    ensures var optional := image[88..288];
            && U64(optional, 24) == 0 && U32(optional, 32) == 0x1000 && U32(optional, 56) == 0x2000
            && U32(optional, 108) == 11 && U32(optional, 192) == 0x1000 && U32(optional, 196) == 208
  {
    SliceFields(image, 88, 288);
    Low64(image, 112);
    Low32(image, 120);
    Low32(image, 144);
    Low32(image, 196);
    Low32(image, 280);
    Low32(image, 284);
  }

  lemma EcLoadConfigFields(image: seq<Byte>)
    requires image == EcSample()
    ensures U32(image, 328) == 208 && U64(image, 528) == 0x10D0
  {
    Low32(image, 328);
    Low64(image, 528);
  }

  lemma PageIsPowerOfTwo()
    ensures IsPowerOfTwo(0x1000)
  {
    assert Pow2(4) == 16 && Pow2(8) == 256;
    Pow2Sum(8, 4);
    assert Pow2(12) == 0x1000;
  }

  lemma EcMetadataIsAccepted(image: seq<Byte>)
    requires image == EcSample()
    ensures Pe.Arm64ecWellFormed(image, image[88..288], [EC_SECTION])
  {
    EcOptionalFields(image);
    PageIsPowerOfTwo();
    EcResolves(0x1000, 208, false);
    EcLoadConfigFields(image);
    EcMetadata(image);
  }

  lemma EcSampleIsAccepted()
    ensures Pe.WellFormed(EcSample(), Pe.ARM64EC_OBJECT)
  {
    EcContainer(EcSample());
    EcMetadataIsAccepted(EcSample());
  }
}
