/**
 Resolving an image address (RVA) through a PE section table
 (`mapped`, scripts/generate-runtime-manifest.py:492-503).
 */
module Sections {
  import opened Bits
  import opened Bytes
  import opened Verdict

  const MEM_EXECUTE := 0x2000_0000

  datatype Section = Section(virtualSize: int, start: int, rawSize: int, rawOffset: int, flags: int)

  function Decode(entry: seq<Byte>): Section
    requires |entry| == 40
  {
    Section(U32(entry, 8), U32(entry, 12), U32(entry, 16), U32(entry, 20), U32(entry, 36))
  }

  /** The 40 bytes from `at` on are the table entry of `s`. */
  ghost predicate Stored(image: seq<Byte>, at: int, s: Section) {
    && 0 <= at && at + 40 <= |image|
    && Stores(image, at + 8, s.virtualSize, 4) && Stores(image, at + 12, s.start, 4)
    && Stores(image, at + 16, s.rawSize, 4) && Stores(image, at + 20, s.rawOffset, 4)
    && Stores(image, at + 36, s.flags, 4)
  }

  /** A table entry decodes to the section it was written for, wherever it stands. */
  lemma DecodeReads(image: seq<Byte>, at: nat, s: Section)
    requires Stored(image, at, s)
    ensures Decode(image[at..at + 40]) == s
  {
    SliceFields(image, at, at + 40);
    StoredIsRead(image, at + 8, s.virtualSize);
    StoredIsRead(image, at + 12, s.start);
    StoredIsRead(image, at + 16, s.rawSize);
    StoredIsRead(image, at + 20, s.rawOffset);
    StoredIsRead(image, at + 36, s.flags);
  }

  predicate Executable(s: Section) {
    BitAnd(s.flags, MEM_EXECUTE) != 0
  }

  /** Bit 29 of the characteristics is IMAGE_SCN_MEM_EXECUTE. */
  lemma ExecutableIsBit29(s: Section)
    ensures Executable(s) <==> s.flags / 0x2000_0000 % 2 == 1
  {
    Pow2Sum(16, 13);
    assert Pow2(29) == MEM_EXECUTE;
    AndSingleBit(s.flags, 29);
  }

  /** The section holds file bytes for the whole of `[rva, rva + size)`. */
  predicate Maps(s: Section, rva: int, size: int, executable: bool) {
    && size > 0
    && rva - s.start >= 0
    && rva - s.start + size <= Min(s.virtualSize, s.rawSize)
    && (!executable || Executable(s))
  }

  function FileOffset(s: Section, rva: int): int {
    s.rawOffset + (rva - s.start)
  }

  ghost predicate OnlyMapping(sections: seq<Section>, rva: int, size: int, executable: bool, i: int) {
    && 0 <= i < |sections|
    && Maps(sections[i], rva, size, executable)
    && forall j :: 0 <= j < |sections| && Maps(sections[j], rva, size, executable) ==> j == i
  }

  /** The file offset of the one section entry that maps the range; a range with no or several entries is refused. */
  ghost function Resolve(sections: seq<Section>, rva: int, size: int, executable: bool): Checked<int> {
    if exists i :: OnlyMapping(sections, rva, size, executable, i) then
      var i :| OnlyMapping(sections, rva, size, executable, i);
      Ok(FileOffset(sections[i], rva))
    else
      Rejected(BadRva)
  }

  /** The byte at this address belongs to the section in memory and in the file. */
  ghost predicate HasByte(s: Section, address: int) {
    s.start <= address < s.start + s.virtualSize && address < s.start + s.rawSize
  }

  /** `s` has every byte of the range, which is not empty, and is executable if that is asked for. */
  ghost predicate Backs(s: Section, rva: int, size: int, executable: bool) {
    && size > 0
    && (forall address :: rva <= address < rva + size ==> HasByte(s, address))
    && (executable ==> s.flags / 0x2000_0000 % 2 == 1)
  }

  lemma MapsIsBacks(s: Section, rva: int, size: int, executable: bool)
    ensures Maps(s, rva, size, executable) <==> Backs(s, rva, size, executable)
  {
    ExecutableIsBit29(s);
    if Backs(s, rva, size, executable) {
      assert HasByte(s, rva) && HasByte(s, rva + size - 1);
    }
  }

  /** A range resolves exactly when one section backs it, byte by byte; the offset counts from that section's bytes. */
  lemma ResolveMeans(sections: seq<Section>, rva: int, size: int, executable: bool, offset: int)
    ensures Resolve(sections, rva, size, executable) == Ok(offset) <==>
              exists i :: 0 <= i < |sections|
                && Backs(sections[i], rva, size, executable)
                && (forall j :: 0 <= j < |sections| && j != i ==> !Backs(sections[j], rva, size, executable))
                && offset - sections[i].rawOffset == rva - sections[i].start
  {
    forall i | 0 <= i < |sections| {
      MapsIsBacks(sections[i], rva, size, executable);
    }
    if Resolve(sections, rva, size, executable) == Ok(offset) {
      var i :| OnlyMapping(sections, rva, size, executable, i)
               && Resolve(sections, rva, size, executable) == Ok(FileOffset(sections[i], rva));
      assert Backs(sections[i], rva, size, executable);
    }
    if i :| 0 <= i < |sections| && Backs(sections[i], rva, size, executable)
            && (forall j :: 0 <= j < |sections| && j != i ==> !Backs(sections[j], rva, size, executable))
            && offset - sections[i].rawOffset == rva - sections[i].start {
      assert OnlyMapping(sections, rva, size, executable, i);
    }
  }

  method Mapped(sections: seq<Section>, rva: int, size: int, executable: bool) returns (r: Checked<int>)
    ensures r == Resolve(sections, rva, size, executable)
  {
    var matches: seq<int> := [];
    ghost var found: seq<int> := [];
    for k := 0 to |sections|
      invariant |found| == |matches|
      invariant forall m :: 0 <= m < |found| ==>
                  && 0 <= found[m] < k
                  && Maps(sections[found[m]], rva, size, executable)
                  && matches[m] == FileOffset(sections[found[m]], rva)
      invariant forall m, n :: 0 <= m < n < |found| ==> found[m] < found[n]
      invariant forall j :: 0 <= j < k && Maps(sections[j], rva, size, executable) ==> j in found
    {
      if Maps(sections[k], rva, size, executable) {
        matches := matches + [FileOffset(sections[k], rva)];
        found := found + [k];
      }
    }
    if |matches| != 1 {
      forall i ensures !OnlyMapping(sections, rva, size, executable, i) {
        if |found| > 1 {
          assert found[0] != found[1];
        }
      }
      return Rejected(BadRva);
    }
    assert OnlyMapping(sections, rva, size, executable, found[0]);
    return Ok(matches[0]);
  }

  /** The check made on every section when the section table is read: file bytes, when there are any, exist. */
  predicate PayloadInside(s: Section, headersEnd: int, fileSize: int) {
    s.rawSize != 0 ==> headersEnd <= s.rawOffset && s.rawOffset + s.rawSize <= fileSize
  }

  /** What that check leaves for the lookups to rely on. */
  ghost predicate PayloadsInside(sections: seq<Section>, fileSize: int) {
    forall i :: 0 <= i < |sections| ==>
      && 0 <= sections[i].rawOffset
      && (sections[i].rawSize != 0 ==> sections[i].rawOffset + sections[i].rawSize <= fileSize)
  }

  /** That check is what keeps every later read of a resolved range inside the file. */
  lemma ResolvedInsideFile(sections: seq<Section>, fileSize: int, rva: int, size: int, executable: bool)
    requires PayloadsInside(sections, fileSize)
    ensures var r := Resolve(sections, rva, size, executable);
            r.Ok? ==> 0 <= r.value && r.value + size <= fileSize
  {
  }

  /** Sub-ranges resolve to the same bytes, unless only the sub-range is asked to be executable. */
  lemma SubrangeCoherent(sections: seq<Section>, rva: int, size: int, k: int, n: int, whole: bool, part: bool)
    requires 0 <= k && 0 < n && k + n <= size && (part ==> whole)
    ensures var w := Resolve(sections, rva, size, whole);
            var p := Resolve(sections, rva + k, n, part);
            w.Ok? && p.Ok? ==> p.value == w.value + k
  {
    if Resolve(sections, rva, size, whole).Ok? && Resolve(sections, rva + k, n, part).Ok? {
      var i :| OnlyMapping(sections, rva, size, whole, i);
      var j :| OnlyMapping(sections, rva + k, n, part, j);
      assert Maps(sections[i], rva + k, n, part);
    }
  }

  /** An executable and a plain lookup of the same range agree whenever both succeed. */
  lemma ExecutableAndPlainAgree(sections: seq<Section>, rva: int, size: int)
    ensures var x := Resolve(sections, rva, size, true);
            var p := Resolve(sections, rva, size, false);
            x.Ok? && p.Ok? ==> x == p
  {
    if Resolve(sections, rva, size, true).Ok? && Resolve(sections, rva, size, false).Ok? {
      var i :| OnlyMapping(sections, rva, size, true, i);
      var j :| OnlyMapping(sections, rva, size, false, j);
      assert Maps(sections[i], rva, size, false);
    }
  }

  /** How far a section's bytes stand in the file from where they stand in memory. */
  function Displacement(s: Section): int {
    s.rawOffset - s.start
  }

  /**
   Two ranges that resolve are as far apart in the file as in memory if and only if their sections have the same
   displacement, which the section table alone decides.
   */
  lemma LookupsAgreeExactly(
    sections: seq<Section>, rva: int, size: int, whole: bool, i: int, k: int, n: int, part: bool, j: int)
    requires OnlyMapping(sections, rva, size, whole, i) && OnlyMapping(sections, rva + k, n, part, j)
    ensures Resolve(sections, rva, size, whole).Ok? && Resolve(sections, rva + k, n, part).Ok?
    ensures Resolve(sections, rva + k, n, part).value == Resolve(sections, rva, size, whole).value + k
            <==> Displacement(sections[i]) == Displacement(sections[j])
  {
  }

  /**
   The case `SubrangeCoherent` excludes, a plain range and an executable part of it: if both resolve, they are coherent
   when the section of the plain range is executable; otherwise exactly when the other section, which is a different
   one, happens to have the same displacement.
   */
  lemma ExecutableSubrangeExactly(sections: seq<Section>, rva: int, size: int, i: int, k: int, n: int, j: int)
    requires 0 <= k && 0 < n && k + n <= size
    requires OnlyMapping(sections, rva, size, false, i) && OnlyMapping(sections, rva + k, n, true, j)
    ensures Executable(sections[i]) <==> i == j
    ensures Resolve(sections, rva + k, n, true) == Ok(FileOffset(sections[i], rva + k))
            <==> Executable(sections[i]) || Displacement(sections[i]) == Displacement(sections[j])
  {
    LookupsAgreeExactly(sections, rva, size, false, i, k, n, true, j);
    assert Executable(sections[i]) ==> Maps(sections[i], rva + k, n, true);
  }

  /**
   Incoherent tables pass every check made before the lookups: wherever the headers end, the file behind them has room
   for a data section and an executable section of one byte inside its addresses, at another displacement.
   */
  lemma ExecutableSubrangeMayDiffer(headersEnd: nat)
    ensures var data := Section(8, 0x1000, 8, headersEnd, 0);
            var code := Section(1, 0x1004, 1, headersEnd + 8, MEM_EXECUTE);
            var sections := [data, code];
            && PayloadInside(data, headersEnd, headersEnd + 9) && PayloadInside(code, headersEnd, headersEnd + 9)
            && Resolve(sections, 0x1000, 8, false) == Ok(headersEnd)
            && Resolve(sections, 0x1004, 1, true) == Ok(headersEnd + 8)
  {
    var sections := [Section(8, 0x1000, 8, headersEnd, 0), Section(1, 0x1004, 1, headersEnd + 8, MEM_EXECUTE)];
    ExecutableIsBit29(sections[0]);
    ExecutableIsBit29(sections[1]);
    assert OnlyMapping(sections, 0x1000, 8, false, 0);
    assert OnlyMapping(sections, 0x1004, 1, true, 1);
  }

  lemma OccursTwice<T>(s: seq<T>, i: int, j: int)
    requires 0 <= i < j < |s| && s[i] == s[j]
    ensures multiset(s)[s[i]] >= 2
  {
    assert s == s[..j] + [s[j]] + s[j + 1..];
    assert s[i] in s[..j];
  }

  lemma TwoOccurrences<T>(s: seq<T>, x: T) returns (i: int, j: int)
    requires multiset(s)[x] >= 2
    ensures 0 <= i < j < |s| && s[i] == x && s[j] == x
  {
    assert x in s;
    i :| 0 <= i < |s| && s[i] == x;
    assert s == s[..i] + [s[i]] + s[i + 1..];
    if x in s[..i] {
      j := i;
      i :| 0 <= i < j && s[i] == x;
    } else {
      assert x in s[i + 1..];
      j :| i + 1 <= j < |s| && s[j] == x;
    }
  }

  lemma OnlyMappingOrderFree(a: seq<Section>, b: seq<Section>, rva: int, size: int, executable: bool, i: int)
    returns (j: int)
    requires multiset(a) == multiset(b)
    requires OnlyMapping(a, rva, size, executable, i)
    ensures OnlyMapping(b, rva, size, executable, j) && b[j] == a[i]
  {
    assert a[i] in multiset(b);
    j :| 0 <= j < |b| && b[j] == a[i];
    forall k | 0 <= k < |b| && Maps(b[k], rva, size, executable)
      ensures k == j
    {
      assert b[k] in multiset(a);
      assert b[k] == a[i];
      if k != j {
        OccursTwice(b, Min(k, j), Max(k, j));
        var m, n := TwoOccurrences(a, a[i]);
        assert false;
      }
    }
  }

  /** The order of the section table does not matter to any lookup. */
  lemma ResolveOrderFree(a: seq<Section>, b: seq<Section>, rva: int, size: int, executable: bool)
    requires multiset(a) == multiset(b)
    ensures Resolve(a, rva, size, executable) == Resolve(b, rva, size, executable)
  {
    if i :| OnlyMapping(a, rva, size, executable, i) {
      var j := OnlyMappingOrderFree(a, b, rva, size, executable, i);
    } else if i :| OnlyMapping(b, rva, size, executable, i) {
      var j := OnlyMappingOrderFree(b, a, rva, size, executable, i);
    }
  }
}
