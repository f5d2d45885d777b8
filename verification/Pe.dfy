/**
 The PE validator and the ARM64EC (CHPE) validator
 (scripts/generate-runtime-manifest.py:421-552).
 Field positions follow "Optional Header (Image Only)" and "Section Table (Section Headers)" of the
 Microsoft PE Format specification.
 */
module Pe {
  import opened Bits
  import opened Bytes
  import opened Sections
  import opened Sorting
  import opened Spans
  import opened Verdict

  const ARM64EC_OBJECT := 0xA641
  const AMD64 := 0x8664

  // ---- ARM64EC metadata: what a well-formed image is ----

  datatype CodeRange = CodeRange(word: int, length: int) {
    function Kind(): int { word % 4 }
    function Start(): int { word - word % 4 }
    function End(): int { Start() + length }
  }

  function RangeAt(image: seq<Byte>, table: int, i: int): CodeRange
    requires 0 <= i && 0 <= table && table + i * 8 + 8 <= |image|
  {
    CodeRange(U32(image, table + i * 8), U32(image, table + i * 8 + 4))
  }

  /** The address lies in an executable section, or in the alignment block that such a section's end falls in. */
  ghost predicate InExecutableExtent(sections: seq<Section>, alignment: int, address: int)
    requires alignment > 0
  {
    exists i :: 0 <= i < |sections| && ExtentContains(sections[i], alignment, address)
  }

  ghost predicate ExtentContains(s: Section, alignment: int, address: int)
    requires alignment > 0
  {
    && Executable(s)
    && s.start <= address
    && address - address % alignment < s.start + Max(s.virtualSize, s.rawSize)
  }

  ghost predicate RangeInsideExecutable(sections: seq<Section>, alignment: int, r: CodeRange)
    requires alignment > 0
  {
    forall address :: r.Start() <= address < r.End() ==> InExecutableExtent(sections, alignment, address)
  }

  ghost predicate RangeWellFormed(sections: seq<Section>, alignment: int, imageSize: int, r: CodeRange)
    requires alignment > 0
  {
    && r.Kind() != 3
    && r.length > 0
    && r.End() <= imageSize
    && Resolve(sections, r.Start(), 1, true).Ok?
    && Resolve(sections, r.End() - 1, 1, true).Ok?
    && RangeInsideExecutable(sections, alignment, r)
  }

  ghost predicate RangesWellFormed(sections: seq<Section>, alignment: int, imageSize: int, ranges: seq<CodeRange>)
    requires alignment > 0
  {
    && (forall i :: 0 <= i < |ranges| ==> RangeWellFormed(sections, alignment, imageSize, ranges[i]))
    && (exists i :: 0 <= i < |ranges| && ranges[i].Kind() == 1)
  }

  ghost predicate LoadConfigWellFormed(image: seq<Byte>, size: int, config: int) {
    && size >= 208
    && 0 <= config && config + size <= |image|
    && 208 <= U32(image, config) <= size
  }

  ghost predicate MetadataWellFormed(image: seq<Byte>, sections: seq<Section>, rva: int, metadata: int) {
    && 0 <= metadata && metadata + 80 <= |image|
    && U32(image, metadata) in {1, 2}
    && 0 < U32(image, metadata + 8) <= |image| / 8
    && (U32(image, metadata) == 2 ==> Resolve(sections, rva, 92, false).Ok?)
  }

  function Ranges(image: seq<Byte>, table: int, count: nat): (ranges: seq<CodeRange>)
    requires 0 <= table && table + count * 8 <= |image|
    ensures |ranges| == count
    ensures forall i :: 0 <= i < count ==> ranges[i] == RangeAt(image, table, i)
  {
    seq(count, i requires 0 <= i < count => RangeAt(image, table, i))
  }

  ghost predicate CodeMapWellFormed(
    image: seq<Byte>, sections: seq<Section>, alignment: int, imageSize: int, table: int, count: int)
    requires alignment > 0
  {
    && 0 <= count && 0 <= table && table + count * 8 <= |image|
    && RangesWellFormed(sections, alignment, imageSize, Ranges(image, table, count))
  }

  /** The CHPE metadata that starts at `rva` and the code map it points to. */
  ghost predicate ChpeWellFormed(image: seq<Byte>, sections: seq<Section>, alignment: int, imageSize: int, rva: int)
    requires alignment > 0
  {
    && rva > 0
    && var metadata := Resolve(sections, rva, 80, false);
    && metadata.Ok?
    && MetadataWellFormed(image, sections, rva, metadata.value)
    && var codeMap, count := U32(image, metadata.value + 4), U32(image, metadata.value + 8);
    && var table := Resolve(sections, codeMap, count * 8, false);
    && table.Ok?
    && CodeMapWellFormed(image, sections, alignment, imageSize, table.value, count)
  }

  ghost predicate Arm64ecWellFormed(image: seq<Byte>, optional: seq<Byte>, sections: seq<Section>) {
    && |optional| >= 200
    && U32(optional, 108) > 10
    && IsPowerOfTwo(U32(optional, 32))
    && U32(optional, 56) > 0
    && var config := Resolve(sections, U32(optional, 192), U32(optional, 196), false);
    && config.Ok?
    && LoadConfigWellFormed(image, U32(optional, 196), config.value)
    && ChpeWellFormed(image, sections, U32(optional, 32), U32(optional, 56),
                      U64(image, config.value + 200) - U64(optional, 24))
  }

  // ---- The executable spans of the sweep ----

  lemma BlockEndsAfter(e: int, alignment: int, address: int)
    requires IsPowerOfTwo(alignment)
    ensures address < AlignUp(e, alignment) <==> address - address % alignment < e
  {
    AlignUpIsLeastMultiple(e, alignment);
    var up, rest := AlignUp(e, alignment), address % alignment;
    var q, p := up / alignment, address / alignment;
    assert up == q * alignment;
    assert address == p * alignment + rest;
    BlocksApart(q, p, alignment);
    QuotientRemainderUnique(p * alignment, alignment, p, 0);
  }

  lemma BlocksApart(q: int, p: int, d: int)
    requires d > 0
    ensures q > p ==> q * d >= p * d + d
    ensures q <= p ==> q * d <= p * d
  {
    MultipleSize(q - p, d);
    assert (q - p) * d == q * d - p * d;
  }

  method ExecutableSpans(sections: seq<Section>, alignment: int) returns (spans: seq<Span>)
    requires IsPowerOfTwo(alignment)
    ensures forall address :: Contains(spans, address) <==> InExecutableExtent(sections, alignment, address)
  {
    spans := [];
    ghost var origins: seq<int> := [];
    for k := 0 to |sections|
      invariant |origins| == |spans|
      invariant forall j :: 0 <= j < |spans| ==> ComesFrom(sections[..k], alignment, spans[j], origins[j])
      invariant forall i :: 0 <= i < k && Executable(sections[i]) ==> SpanOf(sections[i], alignment) in spans
    {
      if Executable(sections[k]) {
        var end := sections[k].start + Max(sections[k].virtualSize, sections[k].rawSize);
        spans := spans + [Span(sections[k].start, AlignUp(end, alignment))];
        origins := origins + [k];
      }
    }
    assert sections[..|sections|] == sections;
    forall address
      ensures Contains(spans, address) <==> InExecutableExtent(sections, alignment, address)
    {
      SpansMeanExtents(sections, alignment, spans, origins, address);
    }
  }

  function SpanOf(s: Section, alignment: int): Span {
    Span(s.start, AlignUp(s.start + Max(s.virtualSize, s.rawSize), alignment))
  }

  ghost predicate ComesFrom(sections: seq<Section>, alignment: int, span: Span, i: int) {
    0 <= i < |sections| && Executable(sections[i]) && span == SpanOf(sections[i], alignment)
  }

  lemma SpansMeanExtents(sections: seq<Section>, alignment: int, spans: seq<Span>, origins: seq<int>, address: int)
    requires IsPowerOfTwo(alignment)
    requires |origins| == |spans|
    requires forall j :: 0 <= j < |spans| ==> ComesFrom(sections, alignment, spans[j], origins[j])
    requires forall i :: 0 <= i < |sections| && Executable(sections[i]) ==> SpanOf(sections[i], alignment) in spans
    ensures Contains(spans, address) <==> InExecutableExtent(sections, alignment, address)
  {
    forall i | 0 <= i < |sections| {
      BlockEndsAfter(sections[i].start + Max(sections[i].virtualSize, sections[i].rawSize), alignment, address);
    }
    if Contains(spans, address) {
      var j :| 0 <= j < |spans| && spans[j].start <= address < spans[j].end;
      assert ComesFrom(sections, alignment, spans[j], origins[j]);
      assert ExtentContains(sections[origins[j]], alignment, address);
    }
    if InExecutableExtent(sections, alignment, address) {
      var i :| 0 <= i < |sections| && ExtentContains(sections[i], alignment, address);
      assert SpanOf(sections[i], alignment) in spans;
    }
  }

  // ---- ARM64EC metadata: the validator ----

  lemma LowBits(word: int)
    ensures BitAnd(word, 3) == word % 4
    ensures BitAnd(word, BitNot(3)) == word - word % 4
  {
    assert Pow2(2) == 4;
    AndLowMask(word, 2);
    AndHighMask(word, 2);
  }

  /** The reasons that only the ARM64EC part gives. */
  predicate MetadataReason(why: Reason) {
    why in {NoLoadConfigDirectory, BadAlignmentOrSize, TruncatedLoadConfig, BadRva, BadLoadConfigSize, NoChpePointer,
            BadChpeMetadata, BadRangeType, BadRangeExtent, RangeLeavesExecutable, NoArm64ecRange}
  }

  method CheckRange(sections: seq<Section>, spans: seq<Span>, alignment: int, imageSize: int, word: int, length: int)
    returns (r: Checked<int>)
    requires alignment > 0 && length >= 0
    requires forall address :: Contains(spans, address) <==> InExecutableExtent(sections, alignment, address)
    ensures r.Ok? <==> RangeWellFormed(sections, alignment, imageSize, CodeRange(word, length))
    ensures r.Ok? ==> r.value == word % 4
    ensures r == Rejected(RangeLeavesExecutable) ==>
              !RangeInsideExecutable(sections, alignment, CodeRange(word, length))
    ensures r.Rejected? ==> MetadataReason(r.why) && r.why != NoArm64ecRange
  {
    ghost var range := CodeRange(word, length);
    LowBits(word);
    var codeType := BitAnd(word, 3);
    if codeType == 3 {
      return Rejected(BadRangeType);
    }
    var start := BitAnd(word, BitNot(3));
    var end := start + length;
    if length == 0 || end > imageSize {
      return Rejected(BadRangeExtent);
    }
    var first :- Mapped(sections, start, 1, true);
    var last :- Mapped(sections, end - 1, 1, true);
    var cursor := Sweep(spans, start);
    FrontierDecidesCoverage(spans, start, cursor, end);
    assert Covered(spans, start, end) <==> RangeInsideExecutable(sections, alignment, range);
    if cursor < end {
      return Rejected(RangeLeavesExecutable);
    }
    return Ok(codeType);
  }

  method ScanRanges(image: seq<Byte>, sections: seq<Section>, alignment: int, imageSize: int, table: nat, count: nat)
    returns (r: Checked<bool>)
    requires IsPowerOfTwo(alignment)
    requires table + count * 8 <= |image|
    ensures r.Ok? <==> forall i :: 0 <= i < count ==>
                         RangeWellFormed(sections, alignment, imageSize, RangeAt(image, table, i))
    ensures r.Ok? ==> (r.value <==> exists i :: 0 <= i < count && RangeAt(image, table, i).Kind() == 1)
    ensures r.Rejected? ==> MetadataReason(r.why) && r.why != NoArm64ecRange
    ensures r == Rejected(RangeLeavesExecutable) ==>
              exists i :: 0 <= i < count && !RangeInsideExecutable(sections, alignment, RangeAt(image, table, i))
  {
    var spans := ExecutableSpans(sections, alignment);
    var hasArm64ec := false;
    for i := 0 to count
      invariant forall j :: 0 <= j < i ==>
                  RangeWellFormed(sections, alignment, imageSize, RangeAt(image, table, j))
      invariant hasArm64ec <==> exists j :: 0 <= j < i && RangeAt(image, table, j).Kind() == 1
    {
      var word, length := U32(image, table + i * 8), U32(image, table + i * 8 + 4);
      ghost var range := RangeAt(image, table, i);
      assert range == CodeRange(word, length);
      var codeType :- CheckRange(sections, spans, alignment, imageSize, word, length);
      hasArm64ec := hasArm64ec || codeType == 1;
    }
    return Ok(hasArm64ec);
  }

  method CheckRanges(image: seq<Byte>, sections: seq<Section>, alignment: int, imageSize: int, table: nat, count: nat)
    returns (r: Checked<()>)
    requires IsPowerOfTwo(alignment)
    requires table + count * 8 <= |image|
    ensures r.Ok? <==> RangesWellFormed(sections, alignment, imageSize, Ranges(image, table, count))
    ensures r.Rejected? ==> MetadataReason(r.why)
    ensures r == Rejected(RangeLeavesExecutable) ==>
              exists i :: 0 <= i < count && !RangeInsideExecutable(sections, alignment, RangeAt(image, table, i))
    ensures r == Rejected(NoArm64ecRange) ==>
              forall i :: 0 <= i < count ==> RangeAt(image, table, i).Kind() != 1
  {
    var hasArm64ec :- ScanRanges(image, sections, alignment, imageSize, table, count);
    ghost var ranges := Ranges(image, table, count);
    assert forall i :: 0 <= i < count ==> ranges[i] == RangeAt(image, table, i);
    if !hasArm64ec {
      return Rejected(NoArm64ecRange);
    }
    return Ok(());
  }

  method ValidateArm64ec(image: seq<Byte>, optional: seq<Byte>, sections: seq<Section>) returns (r: Checked<()>)
    requires PayloadsInside(sections, |image|)
    ensures r.Ok? <==> Arm64ecWellFormed(image, optional, sections)
    ensures r.Rejected? ==> MetadataReason(r.why)
  {
    if |optional| < 200 || U32(optional, 108) <= 10 {
      return Rejected(NoLoadConfigDirectory);
    }
    var alignment, imageSize := U32(optional, 32), U32(optional, 56);
    if alignment > 0 {
      PowerOfTwoTest(alignment);
    }
    if alignment == 0 || BitAnd(alignment, alignment - 1) != 0 || imageSize == 0 {
      return Rejected(BadAlignmentOrSize);
    }
    var config :- FindLoadConfig(image, sections, U32(optional, 192), U32(optional, 196));
    OnlyChpeIsLeft(image, optional, sections, config);
    r := ValidateChpe(image, sections, alignment, imageSize, U64(image, config + 200), U64(optional, 24));
  }

  lemma OnlyChpeIsLeft(image: seq<Byte>, optional: seq<Byte>, sections: seq<Section>, config: int)
    requires |optional| >= 200 && U32(optional, 108) > 10 && IsPowerOfTwo(U32(optional, 32)) && U32(optional, 56) > 0
    requires Resolve(sections, U32(optional, 192), U32(optional, 196), false) == Ok(config)
    requires LoadConfigWellFormed(image, U32(optional, 196), config)
    ensures Arm64ecWellFormed(image, optional, sections)
            <==> ChpeWellFormed(image, sections, U32(optional, 32), U32(optional, 56),
                                U64(image, config + 200) - U64(optional, 24))
  {
  }

  /** The load configuration: where it is in the file, once its two sizes make sense. */
  method FindLoadConfig(image: seq<Byte>, sections: seq<Section>, rva: int, size: int) returns (r: Checked<int>)
    requires PayloadsInside(sections, |image|) && rva >= 0
    ensures var config := Resolve(sections, rva, size, false);
            && (r.Ok? <==> config.Ok? && LoadConfigWellFormed(image, size, config.value))
            && (r.Ok? ==> r == config)
    ensures r.Rejected? ==> MetadataReason(r.why)
  {
    if size < 208 {
      return Rejected(TruncatedLoadConfig);
    }
    ResolvedInsideFile(sections, |image|, rva, size, false);
    var config :- Mapped(sections, rva, size, false);
    var declaredSize := U32(image, config);
    if declaredSize < 208 || declaredSize > size {
      return Rejected(BadLoadConfigSize);
    }
    return Ok(config);
  }

  method ValidateChpe(
    image: seq<Byte>, sections: seq<Section>, alignment: int, imageSize: int, metadataVa: int, imageBase: int)
    returns (r: Checked<()>)
    requires PayloadsInside(sections, |image|)
    requires IsPowerOfTwo(alignment)
    ensures r.Ok? <==> ChpeWellFormed(image, sections, alignment, imageSize, metadataVa - imageBase)
    ensures r.Rejected? ==> MetadataReason(r.why)
  {
    if metadataVa <= imageBase {
      return Rejected(NoChpePointer);
    }
    var rva := metadataVa - imageBase;
    ResolvedInsideFile(sections, |image|, rva, 80, false);
    var metadata :- Mapped(sections, rva, 80, false);
    var version, codeMap, count := U32(image, metadata), U32(image, metadata + 4), U32(image, metadata + 8);
    if version !in {1, 2} || count == 0 || count > |image| / 8 {
      return Rejected(BadChpeMetadata);
    }
    if version == 2 {
      var extended :- Mapped(sections, rva, 92, false);
    }
    assert MetadataWellFormed(image, sections, rva, metadata);
    ResolvedInsideFile(sections, |image|, codeMap, count * 8, false);
    var table :- Mapped(sections, codeMap, count * 8, false);
    r := CheckRanges(image, sections, alignment, imageSize, table, count);
  }

  // ---- The PE container ----

  const MZ: seq<Byte> := [0x4d, 0x5a]
  const SIGNATURE: seq<Byte> := [0x50, 0x45, 0, 0]
  const PE32_PLUS: seq<Byte> := [0x0b, 0x02]

  /** Linked ARM64EC images carry the AMD64 machine value; the object-file value only names what is expected. */
  function DiskMachine(expected: int): int {
    if expected == ARM64EC_OBJECT then AMD64 else expected
  }

  ghost predicate CoffHeaderAt(image: seq<Byte>, expected: int, pe: int) {
    && 64 <= pe && pe + 24 <= |image|
    && image[pe..pe + 4] == SIGNATURE
    && U16(image, pe + 4) == DiskMachine(expected)
  }

  /** The section table holds `count` entries of 40 bytes from `table`, all inside the file. */
  ghost predicate SectionTableAt(image: seq<Byte>, table: int, count: int) {
    && 0 <= table && 0 < count && table + count * 40 <= |image|
    && forall i :: 0 <= i < count ==> PayloadInside(SectionAt(image, table, i), table + count * 40, |image|)
  }

  function SectionAt(image: seq<Byte>, table: int, i: int): Section
    requires 0 <= i && 0 <= table && table + i * 40 + 40 <= |image|
  {
    Decode(image[table + i * 40..table + i * 40 + 40])
  }

  function SectionTable(image: seq<Byte>, table: int, count: nat): (sections: seq<Section>)
    requires 0 <= table && table + count * 40 <= |image|
    ensures |sections| == count
    ensures forall i :: 0 <= i < count ==> sections[i] == SectionAt(image, table, i)
  {
    seq(count, i requires 0 <= i < count => SectionAt(image, table, i))
  }

  /** The parts of an image that come before the ARM64EC question. */
  datatype Container = Container(optional: seq<Byte>, sections: seq<Section>)

  ghost predicate ContainerWellFormed(image: seq<Byte>, expected: int) {
    && |image| >= 64
    && image[..2] == MZ
    && var pe := U32(image, 0x3c);
    && CoffHeaderAt(image, expected, pe)
    && var count, optionalSize := U16(image, pe + 6), U16(image, pe + 20);
    && optionalSize >= 2
    && SectionTableAt(image, pe + 24 + optionalSize, count)
    && image[pe + 24..pe + 26] == PE32_PLUS
  }

  ghost function ContainerOf(image: seq<Byte>, expected: int): Container
    requires ContainerWellFormed(image, expected)
  {
    var pe := U32(image, 0x3c);
    var count, optionalSize := U16(image, pe + 6), U16(image, pe + 20);
    Container(image[pe + 24..pe + 24 + optionalSize], SectionTable(image, pe + 24 + optionalSize, count))
  }

  /** A PE32+ image for the expected machine; for ARM64EC also a well-formed CHPE code map. */
  ghost predicate WellFormed(image: seq<Byte>, expected: int) {
    && ContainerWellFormed(image, expected)
    && var parts := ContainerOf(image, expected);
    && (expected == ARM64EC_OBJECT ==> Arm64ecWellFormed(image, parts.optional, parts.sections))
  }

  datatype Coff = Coff(at: nat, count: nat, optionalSize: nat)

  method ReadCoffHeader(image: seq<Byte>, expected: int) returns (r: Checked<Coff>)
    ensures r.Ok? <==> |image| >= 64 && image[..2] == MZ && CoffHeaderAt(image, expected, U32(image, 0x3c))
    ensures r.Ok? ==>
              && r.value.at == U32(image, 0x3c)
              && r.value.count == U16(image, r.value.at + 6)
              && r.value.optionalSize == U16(image, r.value.at + 20)
    ensures r.Rejected? ==> r.why in {NotPe, BadHeaderOffset, WrongMachine}
  {
    var dosHeader := Read(image, 0, 64);
    if |dosHeader| < 64 || dosHeader[..2] != MZ {
      return Rejected(NotPe);
    }
    assert dosHeader == image[0..64];
    SliceFields(image, 0, 64);
    var at := U32(dosHeader, 0x3c);
    if at < 64 {
      return Rejected(BadHeaderOffset);
    }
    var peHeader := Read(image, at, 24);
    if |peHeader| < 24 || peHeader[..4] != SIGNATURE {
      assert |peHeader| == 24 ==> peHeader == image[at..at + 24] && peHeader[..4] == image[at..at + 4];
      return Rejected(NotPe);
    }
    assert peHeader == image[at..at + 24] && peHeader[..4] == image[at..at + 4];
    SliceFields(image, at, at + 24);
    if U16(peHeader, 4) != DiskMachine(expected) {
      return Rejected(WrongMachine);
    }
    return Ok(Coff(at, U16(peHeader, 6), U16(peHeader, 20)));
  }

  method ReadSections(image: seq<Byte>, table: nat, count: nat) returns (r: Checked<seq<Section>>)
    requires 0 < count && table + count * 40 <= |image|
    ensures r.Ok? <==> SectionTableAt(image, table, count)
    ensures r.Ok? ==> r.value == SectionTable(image, table, count) && PayloadsInside(r.value, |image|)
    ensures r.Rejected? ==> r.why == BadSectionPayload
  {
    var sections: seq<Section> := [];
    var position := table;
    for i := 0 to count
      invariant position == table + i * 40
      invariant |sections| == i
      invariant forall j :: 0 <= j < i ==>
                  && sections[j] == SectionAt(image, table, j)
                  && PayloadInside(sections[j], table + count * 40, |image|)
    {
      var entry := Read(image, position, 40);
      if |entry| != 40 {
        return Rejected(TruncatedSectionTable);
      }
      assert entry == image[table + i * 40..table + i * 40 + 40];
      var section := Decode(entry);
      if section.rawSize != 0
         && (section.rawOffset < table + count * 40 || section.rawOffset + section.rawSize > |image|) {
        assert !PayloadInside(SectionAt(image, table, i), table + count * 40, |image|);
        return Rejected(BadSectionPayload);
      }
      sections := sections + [section];
      position := position + |entry|;
    }
    return Ok(sections);
  }

  method ReadContainer(image: seq<Byte>, expected: int) returns (r: Checked<Container>)
    ensures r.Ok? <==> ContainerWellFormed(image, expected)
    ensures r.Ok? ==> r.value == ContainerOf(image, expected) && PayloadsInside(r.value.sections, |image|)
    ensures r != Rejected(TruncatedSectionTable)
  {
    var coff :- ReadCoffHeader(image, expected);
    var optionalAt := coff.at + 24;
    var table := optionalAt + coff.optionalSize;
    if coff.count == 0 || coff.optionalSize < 2 || table + coff.count * 40 > |image| {
      return Rejected(BadSectionTable);
    }
    var optional := Read(image, optionalAt, coff.optionalSize);
    assert optional == image[optionalAt..table] && optional[..2] == image[optionalAt..optionalAt + 2];
    if optional[..2] != PE32_PLUS {
      return Rejected(NotPe32Plus);
    }
    var sections :- ReadSections(image, table, coff.count);
    return Ok(Container(optional, sections));
  }

  method Validate(image: seq<Byte>, expected: int) returns (r: Checked<()>)
    ensures r.Ok? <==> WellFormed(image, expected)
    ensures r != Rejected(TruncatedSectionTable)
  {
    var container :- ReadContainer(image, expected);
    if expected == ARM64EC_OBJECT {
      r := ValidateArm64ec(image, container.optional, container.sections);
    } else {
      r := Ok(());
    }
  }

  // ---- The verdict does not depend on the order of the section table or of the code map ----

  lemma ExtentOrderFree(a: seq<Section>, b: seq<Section>, alignment: int, address: int)
    requires alignment > 0 && multiset(a) == multiset(b)
    ensures InExecutableExtent(a, alignment, address) <==> InExecutableExtent(b, alignment, address)
  {
    SameElements(a, b);
    if i :| 0 <= i < |a| && ExtentContains(a[i], alignment, address) {
      assert a[i] in b;
    }
    if i :| 0 <= i < |b| && ExtentContains(b[i], alignment, address) {
      assert b[i] in a;
    }
  }

  lemma RangeOrderFree(a: seq<Section>, b: seq<Section>, alignment: int, imageSize: int, r: CodeRange)
    requires alignment > 0 && multiset(a) == multiset(b)
    ensures RangeWellFormed(a, alignment, imageSize, r) <==> RangeWellFormed(b, alignment, imageSize, r)
  {
    ResolveOrderFree(a, b, r.Start(), 1, true);
    ResolveOrderFree(a, b, r.End() - 1, 1, true);
    forall address
      ensures InExecutableExtent(a, alignment, address) <==> InExecutableExtent(b, alignment, address)
    {
      ExtentOrderFree(a, b, alignment, address);
    }
  }

  /** Permuting the code map never changes whether its ranges are accepted. */
  lemma RangesOrderFree(sections: seq<Section>, alignment: int, imageSize: int, a: seq<CodeRange>, b: seq<CodeRange>)
    requires alignment > 0 && multiset(a) == multiset(b)
    ensures RangesWellFormed(sections, alignment, imageSize, a) <==> RangesWellFormed(sections, alignment, imageSize, b)
  {
    if RangesWellFormed(sections, alignment, imageSize, a) {
      RangesFromElements(sections, alignment, imageSize, a, b);
    }
    if RangesWellFormed(sections, alignment, imageSize, b) {
      RangesFromElements(sections, alignment, imageSize, b, a);
    }
  }

  lemma RangesFromElements(sections: seq<Section>, alignment: int, imageSize: int, a: seq<CodeRange>, b: seq<CodeRange>)
    requires alignment > 0 && multiset(a) == multiset(b)
    requires RangesWellFormed(sections, alignment, imageSize, a)
    ensures RangesWellFormed(sections, alignment, imageSize, b)
  {
    SameElements(a, b);
    var i :| 0 <= i < |a| && a[i].Kind() == 1;
    assert a[i] in b;
    forall j | 0 <= j < |b| ensures RangeWellFormed(sections, alignment, imageSize, b[j]) {
      assert b[j] in a;
    }
  }

  lemma ChpeOrderFree(
    image: seq<Byte>, a: seq<Section>, b: seq<Section>, alignment: int, imageSize: int, rva: int)
    requires alignment > 0 && multiset(a) == multiset(b)
    requires ChpeWellFormed(image, a, alignment, imageSize, rva)
    ensures ChpeWellFormed(image, b, alignment, imageSize, rva)
  {
    ResolveOrderFree(a, b, rva, 80, false);
    ResolveOrderFree(a, b, rva, 92, false);
    var metadata := Resolve(a, rva, 80, false).value;
    var codeMap, count := U32(image, metadata + 4), U32(image, metadata + 8);
    ResolveOrderFree(a, b, codeMap, count * 8, false);
    var ranges := Ranges(image, Resolve(a, codeMap, count * 8, false).value, count);
    forall i | 0 <= i < |ranges| ensures RangeWellFormed(b, alignment, imageSize, ranges[i]) {
      RangeOrderFree(a, b, alignment, imageSize, ranges[i]);
    }
  }

  /** Permuting the section table never changes the ARM64EC verdict. */
  lemma SectionOrderFree(image: seq<Byte>, optional: seq<Byte>, a: seq<Section>, b: seq<Section>)
    requires multiset(a) == multiset(b)
    ensures Arm64ecWellFormed(image, optional, a) <==> Arm64ecWellFormed(image, optional, b)
  {
    if Arm64ecWellFormed(image, optional, a) {
      SectionOrderFreeOneWay(image, optional, a, b);
    }
    if Arm64ecWellFormed(image, optional, b) {
      SectionOrderFreeOneWay(image, optional, b, a);
    }
  }

  /** What an accepted image has before its CHPE metadata. */
  ghost predicate ConfigAt(image: seq<Byte>, optional: seq<Byte>, sections: seq<Section>, config: int) {
    && |optional| >= 200 && U32(optional, 108) > 10 && IsPowerOfTwo(U32(optional, 32)) && U32(optional, 56) > 0
    && Resolve(sections, U32(optional, 192), U32(optional, 196), false) == Ok(config)
    && LoadConfigWellFormed(image, U32(optional, 196), config)
  }

  /** The CHPE metadata that the load configuration points to. */
  ghost predicate ChpeFrom(image: seq<Byte>, optional: seq<Byte>, sections: seq<Section>, config: int)
    requires ConfigAt(image, optional, sections, config)
  {
    ChpeWellFormed(image, sections, U32(optional, 32), U32(optional, 56), U64(image, config + 200) - U64(optional, 24))
  }

  lemma AcceptedHasParts(image: seq<Byte>, optional: seq<Byte>, sections: seq<Section>) returns (config: int)
    requires Arm64ecWellFormed(image, optional, sections)
    ensures ConfigAt(image, optional, sections, config) && ChpeFrom(image, optional, sections, config)
  {
    config := Resolve(sections, U32(optional, 192), U32(optional, 196), false).value;
    OnlyChpeIsLeft(image, optional, sections, config);
  }

  lemma PartsAreAccepted(image: seq<Byte>, optional: seq<Byte>, sections: seq<Section>, config: int)
    requires ConfigAt(image, optional, sections, config) && ChpeFrom(image, optional, sections, config)
    ensures Arm64ecWellFormed(image, optional, sections)
  {
    OnlyChpeIsLeft(image, optional, sections, config);
  }

  lemma PartsOrderFree(image: seq<Byte>, optional: seq<Byte>, a: seq<Section>, b: seq<Section>, config: int)
    requires multiset(a) == multiset(b)
    requires ConfigAt(image, optional, a, config) && ChpeFrom(image, optional, a, config)
    ensures ConfigAt(image, optional, b, config) && ChpeFrom(image, optional, b, config)
  {
    ResolveOrderFree(a, b, U32(optional, 192), U32(optional, 196), false);
    ChpeOrderFree(image, a, b, U32(optional, 32), U32(optional, 56), U64(image, config + 200) - U64(optional, 24));
  }

  lemma SectionOrderFreeOneWay(image: seq<Byte>, optional: seq<Byte>, a: seq<Section>, b: seq<Section>)
    requires multiset(a) == multiset(b) && Arm64ecWellFormed(image, optional, a)
    ensures Arm64ecWellFormed(image, optional, b)
  {
    var config := AcceptedHasParts(image, optional, a);
    PartsOrderFree(image, optional, a, b, config);
    PartsAreAccepted(image, optional, b, config);
  }
}
