# Graft64 runtime verification model

Graft64 ships a Linux/AArch64 runtime (Wine and FEX) and a native layer that launches a helper process and publishes
generated code. This project models four of its parts in Dafny and proves what they promise:

1. **Image validators** (`Elf`, `Sections`, `Spans`, `Pe`, `PeLayout`): the ELF64, PE32+ and ARM64EC checks on untyped
   bytes. Each validator is an imperative method that accepts exactly the images of a declarative well-formedness
   predicate, and the predicate is tied to images written field by field.
2. **The runtime manifest** (`Text`, `SafePath`, `Checksums`, `Disk`, `Manifest`, `ManifestCommands`, `ManifestMeaning`,
   `ManifestProof`, `ManifestChange`, `ManifestBreaks`) and the **build fingerprint** (`Fingerprint`): generate, verify,
   the checksum file and the hashed input stream over a file tree with symbolic links. Generating and then verifying
   succeeds exactly when no artifact path holds a line break; verifying later means that nothing the manifest records
   has changed.
3. **The host/helper exchange** (`IpcHeader`, `Transfer`, `HelperLoop`, `HostLoop`, `Conversation`, `Protocol`,
   `ProtocolProof`, `HostVerdict`, `Refinement`, `Decimal`, `Spawn`): launching the helper, the loops over short reads
   and writes, what the two loops make of each other's bytes, a state machine of both processes with an invariant over
   every interleaving and every failure, and what a pass means against a process of which nothing is known.
4. **JIT regions and the code cache** (`Jit`, `Lifecycle`): protection transitions, bounded writes and page rounding on
   three platforms and two backends, and the cache that must survive suspend and resume, with failures injected at every
   system call. `LoadCommands` adds the walk that finds an image's UUID.

`Bytes`, `Bits`, `Sorting`, `Options` and `Verdict` hold what the parts share. `Samples` and `SampleTree` hold three
accepted images and a small runtime, so that the predicates above are known to hold of something.

Assumptions. SHA-256, JSON and UTF-8 are parameters: a digest is 64 lower-case hexadecimal digits, decoding undoes
encoding, loading undoes dumping. Change detection assumes that no two different contents *in the trees compared* share a
digest; no global injectivity is assumed. The answers of system calls are plans fixed in advance, so every pattern of
failures is some plan. A file does not change while it is being validated. Memory is sequentially consistent. Error
numbers are Darwin's.

## What the code does that its comments do not say

- A manifest is generated for a tree with a line break (in the sense of `str.splitlines`) in an artifact path, and that
  manifest never verifies, because the checksum file cannot carry the path: `ManifestProof.GenerateThenVerify` gives the
  exact condition, which can be read off the paths before generating. `ManifestBreaks.BreakingNameFails` spoils any tree
  with one file.
- A metadata range and an executable part of it may resolve through two different sections.
  `Sections.ExecutableSubrangeExactly` says exactly when they are coherent: when the section of the range is itself
  executable, or the two sections happen to have the same displacement between file and memory.
  `Sections.ExecutableSubrangeMayDiffer` gives section tables, behind headers of any size, that pass the payload check
  and are incoherent. Lookups of the same kind never disagree (`Sections.SubrangeCoherent`), nor do an executable and a
  plain lookup of the same range.
- Generation follows links at its output paths. If an output lands on something the manifest records, the result
  verifies only if what is recorded did not change by it (`ManifestChange.VerifiedMeansUnchanged`).
- The host retries an interrupted read or write, the helper does not: the two loops have different contracts
  (`Transfer.Persistent`, `Transfer.Impatient`).
- The host accepts any shared size but zero, the helper only sizes that hold its 32-byte record: see
  `Spawn.HelperUnderstandsLaunch`.

## Model

| member | source | states |
|---|---|---|
| `Bits.PowerOfTwoTest` | scripts/generate-runtime-manifest.py:489 | for positive x, `x & (x - 1)` is zero exactly when x is a power of two |
| `Bits.AlignUpIsLeastMultiple` | scripts/generate-runtime-manifest.py:528 | for a power of two A, `(e + A - 1) & ~(A - 1)` is the least multiple of A not below e, on unbounded integers of any sign |
| `Bits.PageRoundExact` | platform/darwin/graft_jit.c:36-39 | in 64-bit arithmetic the rounded size is the least multiple of the page not below the request if that fits, and 0 otherwise |
| `Bits.AndSingleBit` | scripts/generate-runtime-manifest.py:527 | a test against a one-bit mask reads exactly that binary digit |
| `Bits.AndByDigits` | scripts/generate-runtime-manifest.py:489 | each binary digit of `x & y` is one exactly if it is one in both, for integers of any sign |
| `Bytes.UnpackPack` | scripts/generate-runtime-manifest.py:488 | a little-endian field reads back the number packed there, wherever it stands and whatever surrounds it |
| `Bytes.PackUnpack` | scripts/generate-runtime-manifest.py:488 | packing the value of a field gives back its bytes |
| `Bytes.ReadsInBytes` | scripts/generate-runtime-manifest.py:380 | two-, four- and eight-byte reads, byte by byte, least significant first |
| `Bytes.StoredIsRead` | scripts/generate-runtime-manifest.py:380 | what is stored in two, four or eight bytes is what the read of that width gives |
| `Sorting.SortSorts` | scripts/generate-runtime-manifest.py:545 | the sort gives an ordered permutation for every total order |
| `Sorting.SortedIsUnique` | scripts/generate-runtime-manifest.py:545 | an ordered permutation is unique, so the result does not depend on the algorithm or the input order |
| `Spans.Sweep` | scripts/generate-runtime-manifest.py:544-547 | one pass over the sorted spans: everything from the start to the final cursor is covered, and the cursor itself is not |
| `Spans.FrontierDecidesCoverage` | scripts/generate-runtime-manifest.py:548-549 | the cursor reaches the end exactly when every address of the range lies in some span |
| `Elf.ReadHeader` | scripts/generate-runtime-manifest.py:358-396 | accepts exactly a little-endian ELF64 AArch64 header whose whole program table lies in the file |
| `Elf.HeaderReads` | scripts/generate-runtime-manifest.py:366-396 | which values the fields of `<HHIQQQIHHHHHH` at byte 16 must have, for a header written from any values |
| `Elf.Validate` | scripts/generate-runtime-manifest.py:358-418 | accepts exactly the well-formed images (every segment inside the file, memory size at least file size, a loadable segment); the truncated-table rejection never happens; the missing-segment rejection means that no entry is loadable |
| `Elf.SegmentsDecide` | scripts/generate-runtime-manifest.py:397-418 | behind a good header, the segments whose program headers stand in the table decide: all inside the file, none larger in the file than in memory, one of type 1 |
| `Sections.Mapped` | scripts/generate-runtime-manifest.py:492-503 | the loop finds the file offset of the one section that maps the range, and refuses none or several |
| `Sections.DecodeReads` | scripts/generate-runtime-manifest.py:495-496 | a table entry decodes to the section it was written for: virtual size at 8, address at 12, raw size at 16, raw offset at 20, flags at 36 |
| `Sections.ResolveMeans` | scripts/generate-runtime-manifest.py:492-503 | a range resolves exactly when one section alone has each of its bytes both in memory and in the file, and the offset counts from that section's bytes |
| `Sections.ResolvedInsideFile` | scripts/generate-runtime-manifest.py:492-503 | once section payloads are inside the file, every resolved range is, so the reads that follow are in bounds |
| `Sections.SubrangeCoherent` | scripts/generate-runtime-manifest.py:492-503 | if a range and a part of it resolve, they differ by exactly the distance between them |
| `Sections.ExecutableAndPlainAgree` | scripts/generate-runtime-manifest.py:499-500 | executable and plain lookups of one range that both succeed agree |
| `Sections.LookupsAgreeExactly` | scripts/generate-runtime-manifest.py:492-503 | two ranges that resolve are as far apart in the file as in memory if and only if their sections have the same displacement |
| `Sections.ExecutableSubrangeExactly` | scripts/generate-runtime-manifest.py:492-503 | a plain range and an executable part of it that both resolve are coherent exactly when the section of the range is executable or the displacements are equal |
| `Sections.ExecutableSubrangeMayDiffer` | scripts/generate-runtime-manifest.py:492-503 | wherever the headers end, a section table that passes the payload check can be incoherent in that way |
| `Sections.ResolveOrderFree` | scripts/generate-runtime-manifest.py:492-503 | the lookup is the same for every permutation of the section table |
| `Sections.ExecutableIsBit29` | scripts/generate-runtime-manifest.py:499 | a section counts as executable exactly when bit 29 of its flags is set |
| `Pe.BlockEndsAfter` | scripts/generate-runtime-manifest.py:526-528 | an address is below the rounded end exactly when the block it lies in starts below the end |
| `Pe.ExecutableSpans` | scripts/generate-runtime-manifest.py:523-528 | the collected spans contain exactly the addresses of the executable sections' rounded extents |
| `Pe.CheckRange` | scripts/generate-runtime-manifest.py:531-550 | one code-map entry is accepted exactly when its type, extent, executable endpoints and unbroken cover are right |
| `Pe.CheckRanges` | scripts/generate-runtime-manifest.py:523-552 | the code map is accepted exactly when every entry is, and one of them is of type 1 |
| `Pe.FindLoadConfig` | scripts/generate-runtime-manifest.py:505-511 | finds the load configuration exactly when its place is unique and its two sizes fit together |
| `Pe.ValidateChpe` | scripts/generate-runtime-manifest.py:513-552 | accepts exactly a CHPE pointer above the image base, well-formed metadata and a well-formed code map |
| `Pe.ValidateArm64ec` | scripts/generate-runtime-manifest.py:478-552 | accepts exactly the declarative ARM64EC metadata predicate |
| `Pe.ReadCoffHeader` | scripts/generate-runtime-manifest.py:421-450 | accepts exactly a PE signature, offset and machine value as required, and returns the header's fields |
| `Pe.ReadSections` | scripts/generate-runtime-manifest.py:464-473 | returns the whole section table, and only if every payload lies in the file |
| `Pe.ReadContainer` | scripts/generate-runtime-manifest.py:421-473 | accepts exactly the well-formed containers; the truncated-table rejection never happens |
| `Pe.Validate` | scripts/generate-runtime-manifest.py:421-475 | accepts exactly the well-formed images for the expected machine, ARM64EC metadata included |
| `PeLayout.ContainerReads` | scripts/generate-runtime-manifest.py:421-473 | for headers written from any values and any list of sections: accepted exactly with the marks, the machine value that linked images carry, and a table and section bytes inside the file |
| `PeLayout.ContainerHolds` | scripts/generate-runtime-manifest.py:462-473 | what is handed on of an accepted image is the optional header and the sections that were written |
| `PeLayout.ImageReads` | scripts/generate-runtime-manifest.py:421-475 | the verdict on such an image: the container, and the metadata exactly when an ARM64EC module is expected |
| `PeLayout.ConfigReads` | scripts/generate-runtime-manifest.py:485-515 | which values of the optional header and the load configuration let the CHPE metadata decide |
| `PeLayout.MetadataReads` | scripts/generate-runtime-manifest.py:516-522 | which values of the CHPE metadata, and which code maps, are accepted |
| `PeLayout.RangeMeans` | scripts/generate-runtime-manifest.py:531-550 | a code-map entry is accepted exactly if its two low bits name a type, it is not empty and ends in the image, its ends are executable file bytes, and every address between them is executable |
| `Pe.RangesOrderFree` | scripts/generate-runtime-manifest.py:530-552 | the verdict on the code map does not depend on the order of its entries |
| `Pe.SectionOrderFree` | scripts/generate-runtime-manifest.py:478-552 | the verdict on the metadata does not depend on the order of the sections |
| `Samples.ElfSampleIsAccepted` | scripts/generate-runtime-manifest.py:358-418 | a concrete 120-byte image is a well-formed AArch64 ELF image |
| `Samples.PeSampleIsAccepted` | scripts/generate-runtime-manifest.py:421-475 | a concrete 130-byte image is well-formed for the ARM64 machine |
| `Samples.EcSampleIsAccepted` | scripts/generate-runtime-manifest.py:421-552 | a concrete 840-byte image with load configuration, CHPE metadata and a code map is well-formed for ARM64EC |
| `Text.SplitJoin` | scripts/generate-runtime-manifest.py:179-181 | splitting undoes joining for pieces without the separator |
| `Text.JoinSplit` | scripts/generate-runtime-manifest.py:179-181 | joining undoes splitting for every string |
| `Text.JoinInjective` | scripts/generate-runtime-manifest.py:197 | lists of separator-free names with the same joined text are the same |
| `Text.SplitLinesUndoesLines` | scripts/generate-runtime-manifest.py:595-598 | `splitlines` gives back the written lines if none holds one of its line breaks |
| `Text.EveryBreakEndsALine` | scripts/generate-runtime-manifest.py:595-598 | each of the ten break characters ends a line, and CR LF ends one line, not two |
| `Text.PathOrderIsTotal` | scripts/generate-runtime-manifest.py:195 | comparing paths component by component is a total order |
| `Text.OrdersMean` | scripts/generate-runtime-manifest.py:195 | strings compare by the code points where they part and a prefix comes first; paths do the same by components |
| `SafePath.AcceptsExactly` | scripts/generate-runtime-manifest.py:171-184 | accepted are ".", unless a root prefix is asked for, and the strings whose pieces are all plain names and that hold no backslash, starting with "root" when asked for |
| `SafePath.JoinedIsAccepted` | scripts/generate-runtime-manifest.py:171-184 | plain names joined by "/" split back, and are accepted exactly when there is no backslash and the prefix is right |
| `SafePath.AcceptedStaysInside` | scripts/generate-runtime-manifest.py:171-184 | walking an accepted path component by component never leaves the base, nor the base's root when a root prefix is asked for |
| `Checksums.Parse` | scripts/generate-runtime-manifest.py:626-643 | gives the map of the listed entries; refuses exactly the texts that list nothing, hold a malformed line or an unsafe path, or repeat a path |
| `Checksums.MatchLineMeans` | scripts/generate-runtime-manifest.py:634-637 | a line matches exactly if it is 64 hexadecimal digits, white space and a path, and which path that is |
| `Checksums.ListingMeans` | scripts/generate-runtime-manifest.py:626-643 | a text lists entries exactly if its lines match as them, one by one, with safe paths that all differ |
| `Checksums.ToMapMeaning` | scripts/generate-runtime-manifest.py:638-642 | the map holds each listed path with its digest, and no other path |
| `Checksums.PrintAppends` | scripts/generate-runtime-manifest.py:595-598 | each entry is printed as a line of its own: digest, two spaces, path |
| `Checksums.ParsesWhatItPrints` | scripts/generate-runtime-manifest.py:595-598 | the written text of any non-empty list of distinct safe paths without line breaks lists exactly those entries |
| `Checksums.ListingIsUnique` | scripts/generate-runtime-manifest.py:626-643 | a text lists one sequence of entries at most |
| `Checksums.ListedPathsHaveNoBreaks` | scripts/generate-runtime-manifest.py:633-641 | no text lists a path with a line break |
| `Disk.FollowSurvives` | scripts/generate-runtime-manifest.py:271-281 | writing one file leaves every resolution that succeeded before where it was, links included |
| `Disk.ResolvingIsFinal` | scripts/generate-runtime-manifest.py:271-281 | what a path resolves to exists, is no link, and resolves to itself |
| `Disk.LinkStandsForItsTarget` | scripts/generate-runtime-manifest.py:203-209 | a path that resolves through a link resolves as if the target stood in its place, from the top if it is absolute |
| `Disk.FollowWithoutLinks` | scripts/generate-runtime-manifest.py:271-281 | where there are no links, resolving is walking: "." stays and ".." goes up |
| `Disk.LandThenFollow` | scripts/generate-runtime-manifest.py:598-621 | what is written through a path, links included, is found by reading that path |
| `Disk.OthersStillLead` | scripts/generate-runtime-manifest.py:598-621 | writing one file changes nothing about a path that does not lead to it, not even where a missing file would appear |
| `Disk.SortedListingOf` | scripts/generate-runtime-manifest.py:195 | sorting any enumeration of a set of paths gives its one strictly increasing listing |
| `Manifest.CollectArtifacts` | scripts/generate-runtime-manifest.py:187-225 | for any enumeration order the result is the one list determined by the tree; it is refused exactly when the root is not a real directory, a leaf has an unsafe path, or a link is absolute, dangling or leads out of the root |
| `ManifestMeaning.CollectionRecords` | scripts/generate-runtime-manifest.py:193-225 | the list has one record for each file and link below the root, in path order, with its path, the digest of its contents or target, its kind and its role |
| `ManifestMeaning.RoleMeans` | scripts/generate-runtime-manifest.py:161-168 | the role is decided by the whole path for the loader and by the last name for the two modules |
| `ManifestMeaning.EscapingLinkIsRefused` | scripts/generate-runtime-manifest.py:203-209 | in any tree, a link below the root that climbs to a file beside the root makes the collection refuse |
| `Manifest.ValidateRequired` | scripts/generate-runtime-manifest.py:555-592 | accepts exactly when each required role has one artifact, inside the root, in the right format, and the loader is executable |
| `ManifestMeaning.RequiredMeans` | scripts/generate-runtime-manifest.py:555-592 | each required role has one artifact only, which leads to a regular file inside the resolved root; the loader is runnable and ELF, the modules are PE for ARM64EC and ARM64 |
| `Manifest.ListPatches` | scripts/generate-runtime-manifest.py:228-250 | for any enumeration order the entries are those of the sorted patches, and any patch that is not a regular file is refused |
| `Manifest.AppliedPatchEntries` | scripts/generate-runtime-manifest.py:228-268 | the patch state, if it opens, must be no link and hold exactly the expected entries; if it does not open there must be no patch at all |
| `Manifest.AppliedMeans` | scripts/generate-runtime-manifest.py:228-268 | the same for the specification: acceptance in terms of what the state file holds and which patches there are |
| `ManifestMeaning.PatchEntriesByName` | scripts/generate-runtime-manifest.py:228-250 | the expected entries are the patches of wine by name, then those of fex by name, each with its path in the repository and its digest |
| `ManifestMeaning.ReadableMeans` | scripts/generate-runtime-manifest.py:228-250 | the three patch directories are real ones and everything whose name ends in ".patch" is a regular file |
| `ManifestCommands.ValidateTestReport` | scripts/generate-runtime-manifest.py:284-314 | accepts exactly the well-formed reports with distinct names and existing logs, and adds each log's digest |
| `ManifestCommands.ValidateManifestTests` | scripts/generate-runtime-manifest.py:327-355 | accepts exactly the well-formed test lists whose logs still have the recorded digests |
| `ManifestMeaning.ReportEntryMeans` | scripts/generate-runtime-manifest.py:284-314 | a report entry is accepted exactly if it spells out a name, one of the four statuses and a safe path that leads to a regular file inside the runtime |
| `ManifestMeaning.TestEntryMeans` | scripts/generate-runtime-manifest.py:327-355 | a test entry is accepted exactly if it also holds the digest that its log has now |
| `ManifestMeaning.DigestAdded` | scripts/generate-runtime-manifest.py:305-314 | a report entry is carried over unchanged, with the digest of its log |
| `ManifestMeaning.ReportNamesDiffer` | scripts/generate-runtime-manifest.py:284-314 | no two tests of an accepted report have the same name, and nothing else is asked across entries |
| `ManifestMeaning.TestNamesDiffer` | scripts/generate-runtime-manifest.py:327-355 | the same for an accepted test list |
| `ManifestCommands.ReadArtifact` | scripts/generate-runtime-manifest.py:685-721 | reads exactly the objects that some artifact with consistent fields is written as, and gives that artifact |
| `ManifestMeaning.ArtifactReads` | scripts/generate-runtime-manifest.py:685-721 | an object reads as an artifact exactly if it spells out its five fields and they are consistent |
| `ManifestCommands.VerifyArtifacts` | scripts/generate-runtime-manifest.py:679-733 | accepts exactly the list that a fresh collection of the tree would write |
| `ManifestCommands.CollectionReadsBack` | scripts/generate-runtime-manifest.py:685-724 | every artifact of a collection passes the field checks and reads back, and no path occurs twice |
| `ManifestCommands.StoredOkMeans` | scripts/generate-runtime-manifest.py:646-745 | checking the stored fields one by one is the same as comparing with the manifest that would be generated now |
| `ManifestCommands.Verify` | scripts/generate-runtime-manifest.py:646-745 | accepts exactly when the stored manifest is the one the tree determines for the tests it names, their logs are unchanged, and the checksum file lists the same digests |
| `ManifestMeaning.VerifiedMeans` | scripts/generate-runtime-manifest.py:646-745 | a runtime verifies exactly if it can be collected, its patches are applied, its required files are in place, the checksum file lists the collection, and the stored object has the nine fields that the lock, the tree and an accepted test list give |
| `ManifestCommands.Generate` | scripts/generate-runtime-manifest.py:601-623 | writes the manifest and the checksum file determined by the tree, for any enumeration order, through links and creating what is missing; or refuses, and then leaves the tree as it was, or with the first file written if only the second write failed |
| `ManifestBreaks.OutputsWritten` | scripts/generate-runtime-manifest.py:598-622 | after the two writes the tree holds both texts at the files the two paths lead to, which keep their permissions; or the manifest only; or nothing new |
| `ManifestProof.CollectionSurvives` | scripts/generate-runtime-manifest.py:601-623 | writing a file outside the root changes no artifact |
| `ManifestProof.ChecksumsRoundTrip` | scripts/generate-runtime-manifest.py:595-598 | the written checksum file lists the artifacts' digests exactly when no artifact path holds a line break |
| `ManifestProof.GeneratedFacts` | scripts/generate-runtime-manifest.py:601-623 | after generation both outputs read back and everything else reads as before, whatever links the output paths are |
| `ManifestProof.GenerateThenVerify` | scripts/generate-runtime-manifest.py:601-745 | a freshly generated tree verifies if and only if no path of a leaf under the root holds a line break, provided the outputs land on two files that hold nothing recorded |
| `ManifestBreaks.BreakingNameFails` | scripts/generate-runtime-manifest.py:595-745 | from any tree that generates, adding one file with a line break in its name gives a tree that still generates and does not verify |
| `ManifestBreaks.BreakingNamesExist` | scripts/generate-runtime-manifest.py:171-184 | such a name is accepted wherever an artifact path is |
| `SampleTree.TreeVerifies` | scripts/generate-runtime-manifest.py:601-745 | for a concrete tree with the three required files a manifest is generated and verifies |
| `SampleTree.SpoiledTreeFails` | scripts/generate-runtime-manifest.py:601-745 | for the same tree with a file called "a\nb" a manifest is generated and does not verify |
| `ManifestChange.SameManifestSameTree` | scripts/generate-runtime-manifest.py:646-745 | two trees that verify against one manifest have the same files, contents, links, patches and logs |
| `ManifestChange.VerifiedMeansUnchanged` | scripts/generate-runtime-manifest.py:601-745 | if a tree verifies later against the manifest generated for a tree now, everything the manifest records is as it was before generation, wherever the outputs were written |
| `ManifestChange.RequiredRolesAreUnique` | scripts/generate-runtime-manifest.py:555-568 | in an accepted tree each required role belongs to exactly one path |
| `Fingerprint.ParseWritten` | scripts/build-runtime-linux-arm64.sh:60-68 | the length-prefixed stream of any list parses back to the list |
| `Fingerprint.WrittenParsed` | scripts/build-runtime-linux-arm64.sh:60-68 | every byte string that parses is the stream of what it parses to |
| `Fingerprint.StreamIsInjective` | scripts/build-runtime-linux-arm64.sh:59-68 | lists of any lengths, with fields below 2^64 bytes, share a stream only if they are equal |
| `Fingerprint.BigEndianIsReversed` | scripts/build-runtime-linux-arm64.sh:65-67 | a length is stored most significant byte first: the bytes of the little-endian field, reversed |
| `Fingerprint.PrefixIsText` | scripts/build-runtime-linux-arm64.sh:59 | the stream starts with the version text and a null byte |
| `Fingerprint.RecordLayout` | scripts/build-runtime-linux-arm64.sh:65-68 | a record is the length and bytes of the name, then the length and bytes of the contents |
| `Fingerprint.Feed` | scripts/build-runtime-linux-arm64.sh:59-68 | the digest is fed exactly the stream of all inputs, or the run fails because one is missing or too long |
| `Fingerprint.ListInputs` | scripts/build-runtime-linux-arm64.sh:36-57 | the fixed inputs, then the sorted patches of wine and of fex; refused exactly when a patch directory or a patch is not real |
| `Fingerprint.UsableIsReadable` | scripts/build-runtime-linux-arm64.sh:44-56 | the patch directories are accepted exactly when those of a manifest are |
| `Fingerprint.InputsByName` | scripts/build-runtime-linux-arm64.sh:36-57 | the inputs are the fixed ones, then the patches of wine by name, then those of fex, each called by its path in the repository |
| `Fingerprint.CalledByPath` | scripts/build-runtime-linux-arm64.sh:36-43 | a fixed input of the repository is called by its path there |
| `Fingerprint.Compute` | scripts/build-runtime-linux-arm64.sh:27-71 | the fingerprint is the digest of the stream of all inputs, for any enumeration order |
| `Fingerprint.FingerprintDecides` | scripts/build-runtime-linux-arm64.sh:27-71 | two states of the repository have the same fingerprint exactly when no input differs, if the digest separates their two streams |
| `Fingerprint.RepositoryFingerprintDecides` | scripts/build-runtime-linux-arm64.sh:27-71 | the fingerprint of a repository changes exactly when one of the six named files, or a patch of wine or fex, changes |
| `IpcHeader.DecodeEncode` | platform/darwin/graft_ipc_protocol.c:12-22 | decoding undoes encoding, whatever the padding bytes hold |
| `IpcHeader.EncodeDecode` | platform/darwin/graft_ipc_protocol.c:12-22 | encoding undoes decoding on every 24 bytes |
| `IpcHeader.EncodeStores` | platform/darwin/graft_ipc_protocol.c:12-16 | the places of the five fields and of the padding in the 24 bytes |
| `IpcHeader.HelloStores` | probes/helper/main.c:46 | the places of process id, page size and nonce in the HELLO payload |
| `IpcHeader.HelloReads` | platform/darwin/graft_probe.c:634-635 | any payload of 24 bytes reads as a signed process id and two unsigned numbers |
| `IpcHeader.EncodeHeader` | platform/darwin/graft_ipc_protocol.c:12-16 | accepts exactly the magic 0x47524654, version 1 and at most 64 KiB of payload; writes bytes that decode to the header, and otherwise leaves the buffer alone |
| `IpcHeader.DecodeHeader` | platform/darwin/graft_ipc_protocol.c:18-22 | gives the header that encodes to these bytes, and says whether its magic, version and payload size are right |
| `Transfer.Channel.Read` | platform/darwin/graft_probe.c:180-182 | bytes sent are bytes received followed by bytes in flight, before and after every short read |
| `Transfer.ReadFullDeadline` | platform/darwin/graft_probe.c:176-185 | success stores exactly the next bytes of the stream; failure has consumed a proper prefix and comes only from a call that failed for good |
| `Transfer.WriteFullDeadline` | platform/darwin/graft_probe.c:166-175 | success appends the whole message, failure a proper prefix, and only after a call that failed for good |
| `Transfer.ReadFull` | probes/helper/main.c:13 | the same for the helper, where the first call that moves nothing ends the transfer |
| `Transfer.WriteFull` | probes/helper/main.c:14 | the same for the helper's writes |
| `Transfer.SameBytesAtBothEnds` | platform/darwin/graft_probe.c:166-185 | what the reader holds at a place of the stream is what the writer sent at that place |
| `HelperLoop.ReceiveRequest` | probes/helper/main.c:42-45 | takes exactly one valid request and its payload, which fits the buffer; otherwise says what was wrong: no valid header (65) or an incomplete payload (66) |
| `HelperLoop.Answer` | probes/helper/main.c:46-58 | stores the marks and moves the heartbeat once, if there is a shared page, then writes the whole answer: HELLO with its payload, SHUTDOWN or PONG, under the id of the request; or a part that ends in the header (67) or in the payload (68) after a failed write |
| `HelperLoop.Serve` | probes/helper/main.c:41-63 | the helper has read whole requests, answered each in order and moved the heartbeat once for each; exit code 0 means that the last was SHUTDOWN, and every other code has its own definite cause |
| `HelperLoop.CarriesOneList` | probes/helper/main.c:42-45 | the same bytes cannot be read as two different lists of requests |
| `HelperLoop.BeatsCount` | probes/helper/main.c:50 | n increments of the 64-bit heartbeat add n as long as it does not wrap |
| `HostLoop.Ask` | platform/darwin/graft_probe.c:631-636 | one request goes out whole and one matching reply comes in, or the failure has a definite cause |
| `HostLoop.Converse` | platform/darwin/graft_probe.c:625-637 | the loop succeeds exactly when every request was sent and answered in order; otherwise it stopped at one request for a definite cause |
| `Conversation.RequestsAreRead` | platform/darwin/graft_probe.c:615-631 | the host's stream is a list of requests that the helper's loop can read |
| `Conversation.OnlyTheRequestsAreRead` | probes/helper/main.c:42-45 | whatever list is read from the start of the host's stream is the start of the host's list |
| `Conversation.HelperReadsTheHost` | probes/helper/main.c:41-63 | a run of the helper's loop on nothing but the host's stream answers a first part of the host's requests and ends only with SHUTDOWN or a failed system call; on the whole stream it has read every request |
| `Conversation.RepliesAreAccepted` | probes/helper/main.c:52-58 | the helper's answers to any requests are what the host's loop accepts |
| `Conversation.HostAcceptsTheHelper` | platform/darwin/graft_probe.c:630-637 | a run of the host's loop that has received nothing but the helper's answers succeeds with the helper's payload, or stops at a system call that failed for good; it never refuses a reply |
| `ProtocolProof.NextKeepsInv` | platform/darwin/graft_probe.c:630-658 | every action of either process, failures included, keeps the invariant of the exchange |
| `ProtocolProof.RunKeepsInv` | platform/darwin/graft_probe.c:615-658 | the invariant holds after every interleaving |
| `ProtocolProof.CountersInStep` | platform/darwin/graft_probe.c:630-637 | replies received ≤ heartbeat ≤ requests sent ≤ replies received + 1, and the k-th reply has the k-th request's id, the kind that answers it, and a payload only for HELLO |
| `ProtocolProof.PassMeansComplete` | platform/darwin/graft_probe.c:638-658 | a passing verdict, under any failures, means a full exchange, exit code 0, a true shared record and empty queues |
| `ProtocolProof.ReapedVerdictIsExact` | platform/darwin/graft_probe.c:645-658 | when the host does see the helper's exit, it passes exactly if all replies came and the exit code is 0 |
| `HostVerdict.PassIsEarned` | platform/darwin/graft_probe.c:625-658 | whatever the other process, the queues and the shared memory do between the host's steps: the probe passes only after a good reply to every request under its own id, a complete HELLO payload, a collected exit with code 0 and, where it counts, a shared record that was in order when looked at |
| `ProtocolProof.PayloadFitsBuffer` | probes/helper/main.c:43-45 | no header makes the helper read more than its payload buffer holds |
| `ProtocolProof.FaultFreeRunsEndWell` | platform/darwin/graft_probe.c:615-658 | every fault-free run is finite, and where it can go no further the host has passed, with the heartbeat equal to the request count, a non-zero nonce and exit code 0 |
| `ProtocolProof.NotStuck` | platform/darwin/graft_probe.c:630-653 | before the end of a fault-free run some fault-free action is always possible |
| `ProtocolProof.AbandonedHelperExits` | probes/helper/main.c:41-60 | once the host has closed its end, every run of the helper is short and ends in an exit |
| `ProtocolProof.ModesAreSensible` | platform/darwin/graft_probe.c:615-624 | the types and ids of the 2, 3 and 5 requests the probes build, which have the shape the exchange needs |
| `Refinement.RoundIsRun` | probes/helper/main.c:42-60 | one request read, marked and answered by the helper's loop is a run of the state machine |
| `Refinement.ServingIsRun` | probes/helper/main.c:41-60 | so is a whole run of the loop on any requests, with the same bytes, the same heartbeat, and leaving exactly after SHUTDOWN |
| `Refinement.SendingIsRun` | platform/darwin/graft_probe.c:631 | sending one whole request is a run of the state machine, and changes only what is left to send and the queue to the helper |
| `Refinement.ReceivingIsRun` | platform/darwin/graft_probe.c:632-636 | receiving what the host's loop accepts as a reply is a run of the state machine, to the same header and payload |
| `Decimal.ReadsBack` | probes/helper/main.c:18-32 | printed numbers that fit a `long` or a `size_t` read back through `strtol` and `strtoull` with nothing left over |
| `Decimal.BuffersAreLargeEnough` | platform/darwin/graft_process.c:25-30 | the three argument buffers never truncate their numbers |
| `Spawn.SpawnHelper` | platform/darwin/graft_process.c:10-61 | launches exactly the five actions and four arguments and leaves `errno` alone, or gives the first reason not to; nothing is written on failure and the action list is always given back |
| `Spawn.RefusalMeans` | platform/darwin/graft_process.c:12-56 | EINVAL for unusable arguments, EMFILE when a descriptor is above 1022, and else the first call that fails |
| `Spawn.ActionsMoveDescriptors` | platform/darwin/graft_process.c:37-50 | the actions succeed exactly when three different descriptors are open, and then the child's table is the parent's without them and with two new numbers |
| `Spawn.HelperDescriptors` | platform/darwin/graft_process.c:19-50 | after exec the helper has the socket and the shared file, none of the three originals, and nothing else has changed |
| `Spawn.HelperLacksTheHostEnd` | platform/darwin/graft_process.c:42-44 | the helper does not hold the host's end of the socket pair |
| `Spawn.StartsExactly` | probes/helper/main.c:16-36 | the helper starts exactly if its descriptors read as numbers up to 1024 and, when there are four arguments, the size is at least 32 and mapping succeeds |
| `Spawn.HelperUnderstandsLaunch` | probes/helper/main.c:16-36 | the helper starts on the two new descriptors and the whole size exactly when that size holds the shared record and mapping succeeds |
| `Jit.Alloc` | platform/darwin/graft_jit.c:89-121 | whole pages, never fewer bytes than asked, writable and, except for MAP_JIT memory on iOS, not executable; refused when the size would wrap or every try fails; the caller's region is untouched on failure |
| `Jit.BeginWrite` | platform/darwin/graft_jit.c:123-132 | success makes the range writable and not executable |
| `Jit.Write` | platform/darwin/graft_jit.c:134-149 | an accepted write changes exactly its range, in memory that is writable and, under `mprotect`, not executable; a refused one changes no byte, on either backend and even when the data is the region itself; out-of-range writes are refused without a system call |
| `Jit.Commit` | platform/darwin/graft_jit.c:151-160 | success makes the range executable and, under `mprotect`, not writable |
| `Jit.Invalidate` | platform/darwin/graft_jit.c:176-187 | accepts exactly the ranges inside the region, without wrap-around |
| `Jit.Free` | platform/darwin/graft_jit.c:193-198 | gives the mapping back once and forgets it |
| `Jit.Publish` | platform/darwin/graft_jit.c:54-57 | after write, invalidate and commit the code stands at the start of an executable range |
| `Jit.Drive` | platform/darwin/graft_jit.c:89-198 | in every run no range under `mprotect` is writable and executable at once, none is given back twice, the memory is open for writing or for execution as the last call that changed it says, and the bytes are those of the writes answered with success since the allocation |
| `Jit.BackendsAgree` | platform/darwin/graft_jit.c:89-198 | two runs, on any platforms and backends and with any failures, that hold memory of one size and had the same writes accepted leave the same bytes |
| `Jit.ByteIsLastWritten` | platform/darwin/graft_jit.c:134-149 | each byte is what the last accepted write to it stored, or zero |
| `Jit.Check` | platform/darwin/graft_jit.c:41-76 | the status is that of the first failing step, and every range obtained is given back exactly once |
| `Lifecycle.CodeCache.Prepare` | platform/darwin/graft_probe.c:108-128 | the cache is ready exactly when every step succeeded; otherwise nothing is kept |
| `Lifecycle.CodeReturns42` | platform/darwin/graft_probe.c:109 | the eight bytes are the words of `mov w0,#42` and `ret` |
| `Lifecycle.CodeCache.NoteBackground` | platform/darwin/graft_probe.c:105-132 | a ready cache is left alone; otherwise the outcome of a preparation is remembered |
| `Lifecycle.CodeCache.NoteForeground` | platform/darwin/graft_probe.c:133-140 | counts only after a background call |
| `Lifecycle.CodeCache.Probe` | platform/darwin/graft_probe.c:671-705 | the unprepared branch is never taken; on arm64 it passes exactly when the app has returned to the foreground and the cache is ready; a pass has run the committed mapping |
| `Lifecycle.Drive` | platform/darwin/graft_probe.c:105-140 | over every run of calls and failures the invariant holds and every pass ran the one mapping committed by the first successful background call |
| `LoadCommands.Walk` | platform/darwin/graft_probe.c:195-210 | the loop over cursors, whose every read is inside the declared area and whose every step is at least 8 bytes, agrees with the recursive parser |
| `LoadCommands.BinaryUuid` | platform/darwin/graft_probe.c:187-212 | prints the UUID of the first command that has one, or "unavailable" |
| `LoadCommands.ImageReads` | platform/darwin/graft_probe.c:190-195 | for a header written from any values: magic at 0, command count at 16, size of the command area at 20, and the area from 32 on |
| `LoadCommands.CommandsTileTheArea` | platform/darwin/graft_probe.c:196-209 | the parsed commands stand side by side from the start of the area |
| `LoadCommands.CommandsAreWellFormed` | platform/darwin/graft_probe.c:197-198 | each parsed command has the kind and the length that its own bytes say |
| `LoadCommands.CommandsStopWhereTheyMust` | platform/darwin/graft_probe.c:195-198 | the list is cut short only by the count or by bytes that are no command |
| `LoadCommands.CommandsReadBack` | platform/darwin/graft_probe.c:196-209 | well-formed commands laid out one after another are read back, whatever stands behind them |
| `LoadCommands.FirstUuidIsFirst` | platform/darwin/graft_probe.c:199-207 | the UUID is bytes 8 to 23 of the first command of kind 0x1B with at least 24 bytes |
| `LoadCommands.HexByDigits` | platform/darwin/graft_probe.c:202-203 | each byte is printed as two upper-case digits, the high one first |
| `LoadCommands.ParseUuidOfText` | platform/darwin/graft_probe.c:201-206 | the 8-4-4-4-12 text parses back to the 16 bytes, and without its hyphens is their hexadecimal form (RFC 9562, section 4) |

## Left out

- `parse_lock` and the other readers of `deps.lock`: the parsed lock is three opaque JSON values.
- The internals of SHA-256, JSON and UTF-8, names that are not UTF-8, and the texts of error messages.
- Directories without files, permission bits other than the loader's, and special files: the manifest does not record
  them, so verification cannot see a change in them.
- ManifestProof.GenerateThenVerify: assumes that the two outputs, links followed, land on different files that hold no
  artifact, patch, patch state or test log. Where one does, `ManifestChange.VerifiedMeansUnchanged` says that the result
  verifies only if nothing recorded was changed; that both outputs are one file is left to the JSON parser.
- ManifestCommands.Generate: an output that is a device or a pipe makes it fail, and a write is all or nothing.
- Disk.Follow: resolution gives up after 40 links, as the kernel does; `os.path.realpath` has no such limit, and it also
  lets "." and ".." follow a regular file where this walk fails. Hard links between an output and another file cannot
  be expressed.
- Protocol: the two processes read and write one shared record in program order; weak memory and real time are not
  modelled, and a deadline is a failure that may strike any host call, reaping an exited helper included.
- Refinement.ServingIsRun: covers runs on whole requests; runs that end in a failed read or write are related to the
  machine's failures by their exit codes only.
- HostLoop.Converse: the part of the host's buffer that a failing payload read has filled is not modelled; the probe
  fails in that case.
- Spawn.ActionsMoveDescriptors: closing a descriptor that is not open is an error here, which some systems forgive.
- Jit.Write: the callback of the per-thread JIT facility is one call that either refuses or performs the copy; data that
  partly overlaps the destination, which C leaves undefined, is not modelled.
- Jit.BeginWrite: the per-thread write toggle of macOS (`pthread_jit_write_protect_np`) has no effect in the model.
- Lifecycle.CodeCache.Execute: the two instructions return 42 by assumption; no processor is modelled.
- The other probes (`runtime_paths`, `page_model`, `jit_basic`, `jit_multithread`, `signal_resume`, `dlopen_bundle`,
  `unix_socket`): they measure the operating system.
- The user interface, the probe registry, logging and the shell scripts other than the fingerprint program.
