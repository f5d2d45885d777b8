/**
 What an untouched manifest guards: every tree it describes has the same files, links, patches and logs, unless two
 different contents among them share a digest. Directories and permission bits are not recorded.
 */
module ManifestChange {
  import opened Bytes
  import opened Checksums
  import opened Manifest
  import opened ManifestCommands
  import opened ManifestProof
  import opened Options
  import opened Text
  import D = Disk

  ghost function Contents(d: D.Tree): set<seq<Byte>> {
    set p | p in d && d[p].File? :: d[p].data
  }

  /** No two different file contents in these trees have the same digest; SHA-256 need not be injective elsewhere. */
  ghost predicate NoCollisions(env: Env, d: D.Tree, d': D.Tree) {
    forall x, y :: x in Contents(d) + Contents(d') && y in Contents(d) + Contents(d') && env.sha(x) == env.sha(y)
                   ==> x == y
  }

  ghost predicate Comparable(env: Env, d: D.Tree, d': D.Tree) {
    D.WellFormed(d) && D.WellFormed(d') && NoCollisions(env, d, d')
  }

  /** `m` is the manifest of this tree, for some test list whose logs it matches. */
  ghost predicate Describes(env: Env, d: D.Tree, place: Place, lock: Lock, m: Json) {
    && D.WellFormed(d) && Collectable(d, place) && AppliedPatches(env, d, place).Some?
    && m.Obj? && "tests" in m.fields && TestsOk(env, d, place, m.fields["tests"])
    && m == BuildManifest(lock, AppliedPatches(env, d, place).value, Collection(env, d, place), m.fields["tests"].items)
  }

  ghost predicate SameContent(a: D.Node, b: D.Node) {
    || (a.File? && b.File? && a.data == b.data)
    || (a.Link? && a == b)
  }

  ghost predicate SameLeaves(d: D.Tree, d': D.Tree, place: Place) {
    && Leaves(d', place.Root()) == Leaves(d, place.Root())
    && forall p :: p in Leaves(d, place.Root()) ==> SameContent(d[p], d'[p])
  }

  ghost predicate SamePatches(d: D.Tree, d': D.Tree, dir: D.Path) {
    && PatchesIn(d', dir) == PatchesIn(d, dir)
    && forall p :: p in PatchesIn(d, dir) ==> SameContent(d[p], d'[p])
  }

  ghost predicate SameLogs(d: D.Tree, d': D.Tree, place: Place, tests: seq<Json>) {
    forall i :: 0 <= i < |tests| && HasStrings(tests[i], TEST_KEYS) ==>
      var log := tests[i].fields["log"].s;
      LogFile(d, place, log).Some? && LogFile(d', place, log).Some?
      && LogFile(d, place, log).value.data == LogFile(d', place, log).value.data
  }

  // ---- Files and links ----

  lemma RelativeAcrossTrees(d: D.Tree, d': D.Tree, place: Place, p: D.Path, q: D.Path)
    requires D.WellFormed(d) && D.WellFormed(d') && p in d && q in d' && place.Root() < p && place.Root() < q
    requires Relative(place, p) == Relative(place, q)
    ensures p == q
  {
    var n := |place.runtime|;
    BelowRuntime(d, place, p);
    BelowRuntime(d', place, q);
    JoinInjective(p[n..], q[n..], '/');
  }

  lemma SameArtifactSameLeaf(env: Env, d: D.Tree, d': D.Tree, place: Place, p: D.Path, q: D.Path)
    requires Comparable(env, d, d')
    requires p in Leaves(d, place.Root()) && q in Leaves(d', place.Root())
    requires ArtifactOf(env, d, place, p) == ArtifactOf(env, d', place, q)
    ensures p == q && SameContent(d[p], d'[p])
  {
    RelativeAcrossTrees(d, d', place, p, q);
    if d[p].File? {
      assert d[p].data in Contents(d) && d'[q].data in Contents(d');
    }
  }

  lemma LeavesListed(env: Env, d: D.Tree, place: Place, p: D.Path) returns (i: nat)
    requires p in Leaves(d, place.Root())
    ensures i < |Collection(env, d, place)| && D.Listing(Leaves(d, place.Root()))[i] == p
    ensures Collection(env, d, place)[i] == ArtifactOf(env, d, place, p)
  {
    D.ListingIsSorted(Leaves(d, place.Root()));
    var paths := D.Listing(Leaves(d, place.Root()));
    assert p in paths;
    i :| 0 <= i < |paths| && paths[i] == p;
  }

  /** Every leaf of one tree is a leaf of the other, with the same content. */
  lemma LeafFound(env: Env, d: D.Tree, d': D.Tree, place: Place, p: D.Path)
    requires Comparable(env, d, d')
    requires Collection(env, d, place) == Collection(env, d', place)
    requires p in Leaves(d, place.Root())
    ensures p in Leaves(d', place.Root()) && SameContent(d[p], d'[p])
  {
    var i := LeavesListed(env, d, place, p);
    D.ListingIsSorted(Leaves(d', place.Root()));
    var paths := D.Listing(Leaves(d', place.Root()));
    assert |paths| == |Collection(env, d', place)| && paths[i] in paths;
    SameArtifactSameLeaf(env, d, d', place, p, paths[i]);
  }

  lemma LeavesKept(env: Env, d: D.Tree, d': D.Tree, place: Place)
    requires Comparable(env, d, d') && Collection(env, d, place) == Collection(env, d', place)
    ensures forall p :: p in Leaves(d, place.Root()) ==> p in Leaves(d', place.Root()) && SameContent(d[p], d'[p])
  {
    forall p | p in Leaves(d, place.Root())
      ensures p in Leaves(d', place.Root()) && SameContent(d[p], d'[p])
    {
      LeafFound(env, d, d', place, p);
    }
  }

  lemma SameCollectionSameLeaves(env: Env, d: D.Tree, d': D.Tree, place: Place)
    requires Comparable(env, d, d') && Collection(env, d, place) == Collection(env, d', place)
    ensures SameLeaves(d, d', place)
  {
    ComparedEitherWay(env, d, d');
    LeavesKept(env, d, d', place);
    LeavesKept(env, d', d, place);
  }

  // ---- Patches ----

  lemma EntryFields(env: Env, d: D.Tree, d': D.Tree, place: Place, a: string, p: D.Path, b: string, q: D.Path)
    requires p in d && d[p].File? && q in d' && d'[q].File?
    requires |place.repository| <= |p| && |place.repository| <= |q|
    requires PatchEntry(env, d, place, a, p) == PatchEntry(env, d', place, b, q)
    ensures a == b && env.sha(d[p].data) == env.sha(d'[q].data)
    ensures Join(p[|place.repository|..], '/') == Join(q[|place.repository|..], '/')
  {
    var f, g := PatchEntry(env, d, place, a, p).fields, PatchEntry(env, d', place, b, q).fields;
    assert f["dependency"] == g["dependency"] && f["path"] == g["path"] && f["sha256"] == g["sha256"];
  }

  lemma SameNameBelow(d: D.Tree, d': D.Tree, top: D.Path, p: D.Path, q: D.Path)
    requires D.WellFormed(d) && D.WellFormed(d') && p in d && q in d' && top < p && top < q
    requires Join(p[|top|..], '/') == Join(q[|top|..], '/')
    ensures p == q
  {
    D.NamesArePlain(d, p);
    D.NamesArePlain(d', q);
    JoinInjective(p[|top|..], q[|top|..], '/');
    assert p == top + p[|top|..] && q == top + q[|top|..];
  }

  /** `e` is in the list of either dependency. */
  ghost predicate IsEntry(env: Env, d: D.Tree, place: Place, e: Json)
    requires PatchesReadable(d, place)
  {
    e in EntriesIn(env, d, place, "wine") || e in EntriesIn(env, d, place, "fex")
  }

  /** `e` is the list entry of the patch `p`. */
  ghost predicate PatchOf(env: Env, d: D.Tree, place: Place, e: Json, dependency: string, p: D.Path) {
    && p in PatchesIn(d, place.PatchDir(dependency)) && place.repository < p && d[p].File?
    && e == PatchEntry(env, d, place, dependency, p)
  }

  lemma SameEntrySamePatch(env: Env, d: D.Tree, d': D.Tree, place: Place, e: Json,
                           a: string, p: D.Path, b: string, q: D.Path)
    requires Comparable(env, d, d')
    requires PatchOf(env, d, place, e, a, p) && PatchOf(env, d', place, e, b, q)
    ensures a == b && p == q && SameContent(d[p], d'[p])
  {
    EntryFields(env, d, d', place, a, p, b, q);
    SameNameBelow(d, d', place.repository, p, q);
    assert d[p].data in Contents(d) && d'[q].data in Contents(d');
  }

  lemma PatchInDir(d: D.Tree, place: Place, dependency: string, p: D.Path)
    requires PatchesReadable(d, place) && dependency in {"wine", "fex"}
    requires p in PatchesIn(d, place.PatchDir(dependency))
    ensures place.repository < p && d[p].File?
  {
    assert place.repository < place.PatchDir(dependency);
  }

  lemma PatchAmong(env: Env, d: D.Tree, place: Place, dependency: string, p: D.Path)
    requires PatchesAreFiles(d, place, dependency) && p in PatchesIn(d, place.PatchDir(dependency))
    ensures |place.repository| <= |p|
            && PatchEntry(env, d, place, dependency, p) in EntriesIn(env, d, place, dependency)
  {
    D.ListingIsSorted(PatchesIn(d, place.PatchDir(dependency)));
    var paths := D.Listing(PatchesIn(d, place.PatchDir(dependency)));
    assert p in paths;
    var i :| 0 <= i < |paths| && paths[i] == p;
    assert EntriesFor(env, d, place, dependency, paths)[i] == PatchEntry(env, d, place, dependency, p);
  }

  /** A patch of either dependency has its entry in the list. */
  lemma PatchListed(env: Env, d: D.Tree, place: Place, dependency: string, p: D.Path) returns (e: Json)
    requires PatchesReadable(d, place) && dependency in {"wine", "fex"}
    requires p in PatchesIn(d, place.PatchDir(dependency))
    ensures PatchOf(env, d, place, e, dependency, p) && IsEntry(env, d, place, e)
  {
    PatchInDir(d, place, dependency, p);
    PatchAmong(env, d, place, dependency, p);
    e := PatchEntry(env, d, place, dependency, p);
  }

  lemma EntryAmong(env: Env, d: D.Tree, place: Place, dependency: string, e: Json) returns (p: D.Path)
    requires PatchesAreFiles(d, place, dependency) && e in EntriesIn(env, d, place, dependency)
    ensures PatchOf(env, d, place, e, dependency, p)
  {
    D.ListingIsSorted(PatchesIn(d, place.PatchDir(dependency)));
    var paths := D.Listing(PatchesIn(d, place.PatchDir(dependency)));
    var i :| 0 <= i < |paths| && EntriesFor(env, d, place, dependency, paths)[i] == e;
    p := paths[i];
    assert p in paths;
    assert place.repository < place.PatchDir(dependency);
  }

  /** Every entry of the list comes from a patch. */
  lemma EntryHasPatch(env: Env, d: D.Tree, place: Place, e: Json) returns (dependency: string, p: D.Path)
    requires PatchesReadable(d, place) && IsEntry(env, d, place, e)
    ensures PatchOf(env, d, place, e, dependency, p)
  {
    dependency := if e in EntriesIn(env, d, place, "wine") then "wine" else "fex";
    p := EntryAmong(env, d, place, dependency, e);
  }

  ghost predicate SameEntries(env: Env, d: D.Tree, d': D.Tree, place: Place) {
    && PatchesReadable(d, place) && PatchesReadable(d', place)
    && forall e :: IsEntry(env, d, place, e) <==> IsEntry(env, d', place, e)
  }

  lemma SameListSameEntries(env: Env, d: D.Tree, d': D.Tree, place: Place)
    requires PatchesReadable(d, place) && PatchesReadable(d', place)
    requires PatchEntries(env, d, place) == PatchEntries(env, d', place)
    ensures SameEntries(env, d, d', place)
  {
    forall e ensures IsEntry(env, d, place, e) <==> IsEntry(env, d', place, e) {
      assert IsEntry(env, d, place, e) <==> e in PatchEntries(env, d, place);
      assert IsEntry(env, d', place, e) <==> e in PatchEntries(env, d', place);
    }
  }

  lemma PatchFound(env: Env, d: D.Tree, d': D.Tree, place: Place, dependency: string, p: D.Path)
    requires Comparable(env, d, d') && SameEntries(env, d, d', place)
    requires dependency in {"wine", "fex"} && p in PatchesIn(d, place.PatchDir(dependency))
    ensures p in PatchesIn(d', place.PatchDir(dependency)) && SameContent(d[p], d'[p])
  {
    var e := PatchListed(env, d, place, dependency, p);
    var dependency', q := EntryHasPatch(env, d', place, e);
    SameEntrySamePatch(env, d, d', place, e, dependency, p, dependency', q);
  }

  lemma PatchesKept(env: Env, d: D.Tree, d': D.Tree, place: Place, dependency: string)
    requires Comparable(env, d, d') && SameEntries(env, d, d', place) && dependency in {"wine", "fex"}
    ensures var dir := place.PatchDir(dependency);
            forall p :: p in PatchesIn(d, dir) ==> p in PatchesIn(d', dir) && SameContent(d[p], d'[p])
  {
    var dir := place.PatchDir(dependency);
    forall p | p in PatchesIn(d, dir) ensures p in PatchesIn(d', dir) && SameContent(d[p], d'[p]) {
      PatchFound(env, d, d', place, dependency, p);
    }
  }

  lemma ComparedEitherWay(env: Env, d: D.Tree, d': D.Tree)
    requires Comparable(env, d, d')
    ensures Comparable(env, d', d)
  {
    assert Contents(d') + Contents(d) == Contents(d) + Contents(d');
  }

  lemma SameEntriesSamePatches(env: Env, d: D.Tree, d': D.Tree, place: Place, dependency: string)
    requires Comparable(env, d, d') && SameEntries(env, d, d', place) && dependency in {"wine", "fex"}
    ensures SamePatches(d, d', place.PatchDir(dependency))
  {
    ComparedEitherWay(env, d, d');
    PatchesKept(env, d, d', place, dependency);
    PatchesKept(env, d', d, place, dependency);
  }

  // ---- Logs ----

  lemma SameTestsSameLogs(env: Env, d: D.Tree, d': D.Tree, place: Place, tests: seq<Json>)
    requires NoCollisions(env, d, d')
    requires TestsOk(env, d, place, Arr(tests)) && TestsOk(env, d', place, Arr(tests))
    ensures SameLogs(d, d', place, tests)
  {
    forall i | 0 <= i < |tests|
      ensures var log := tests[i].fields["log"].s;
              LogFile(d, place, log).value.data == LogFile(d', place, log).value.data
    {
      assert TestEntryOk(env, d, place, tests[i]) && TestEntryOk(env, d', place, tests[i]);
      var log := tests[i].fields["log"].s;
      assert LogFile(d, place, log).value.data in Contents(d);
      assert LogFile(d', place, log).value.data in Contents(d');
    }
  }

  // ---- The whole ----

  /** Everything a manifest with this test list records is the same in both trees. */
  ghost predicate Unchanged(d: D.Tree, d': D.Tree, place: Place, tests: seq<Json>) {
    && SameLeaves(d, d', place)
    && SamePatches(d, d', place.PatchDir("wine")) && SamePatches(d, d', place.PatchDir("fex"))
    && SameLogs(d, d', place, tests)
  }

  lemma AppliedAreEntries(env: Env, d: D.Tree, place: Place)
    requires AppliedPatches(env, d, place).Some?
    ensures PatchesReadable(d, place) && AppliedPatches(env, d, place) == Some(Arr(PatchEntries(env, d, place)))
  {
  }

  lemma SameManifestSameRecords(env: Env, d: D.Tree, d': D.Tree, place: Place, lock: Lock, m: Json)
    requires Describes(env, d, place, lock, m) && Describes(env, d', place, lock, m)
    ensures SameEntries(env, d, d', place) && Collection(env, d, place) == Collection(env, d', place)
  {
    var tests := m.fields["tests"].items;
    var patches, patches' := AppliedPatches(env, d, place).value, AppliedPatches(env, d', place).value;
    TopLevelMeans(m, lock, patches, Collection(env, d, place), tests);
    TopLevelMeans(m, lock, patches', Collection(env, d', place), tests);
    SameJsonSameArtifacts(Collection(env, d, place), Collection(env, d', place));
    AppliedAreEntries(env, d, place);
    AppliedAreEntries(env, d', place);
    SameListSameEntries(env, d, d', place);
  }

  /** Two trees with one manifest hold the same files, links, patches and logs. */
  lemma OneManifestOneTree(env: Env, d: D.Tree, d': D.Tree, place: Place, lock: Lock, m: Json)
    requires Describes(env, d, place, lock, m) && Describes(env, d', place, lock, m) && NoCollisions(env, d, d')
    ensures Unchanged(d, d', place, m.fields["tests"].items)
  {
    SameManifestSameRecords(env, d, d', place, lock, m);
    SameCollectionSameLeaves(env, d, d', place);
    SameEntriesSamePatches(env, d, d', place, "wine");
    SameEntriesSamePatches(env, d, d', place, "fex");
    SameTestsSameLogs(env, d, d', place, m.fields["tests"].items);
  }

  function TestsOf(m: Json): seq<Json> {
    if m.Obj? && "tests" in m.fields && m.fields["tests"].Arr? then m.fields["tests"].items else []
  }

  lemma VerifiedIsDescribed(env: Env, d: D.Tree, place: Place, lock: Lock)
    requires D.WellFormed(d) && Verifies(env, d, place, lock)
    ensures ReadJson(env, d, place.ManifestPath()).Some?
    ensures Describes(env, d, place, lock, ReadJson(env, d, place.ManifestPath()).value)
  {
  }

  /** If two trees verify against one and the same manifest, nothing it records differs between them. */
  lemma SameManifestSameTree(env: Env, d: D.Tree, d': D.Tree, place: Place, lock: Lock)
    requires Comparable(env, d, d')
    requires Verifies(env, d, place, lock) && Verifies(env, d', place, lock)
    requires ReadJson(env, d', place.ManifestPath()) == ReadJson(env, d, place.ManifestPath())
    ensures ReadJson(env, d, place.ManifestPath()).Some?
    ensures Unchanged(d, d', place, TestsOf(ReadJson(env, d, place.ManifestPath()).value))
  {
    VerifiedIsDescribed(env, d, place, lock);
    VerifiedIsDescribed(env, d', place, lock);
    OneManifestOneTree(env, d, d', place, lock, ReadJson(env, d, place.ManifestPath()).value);
  }

  /** The manifest written for a tree describes that tree. */
  lemma GeneratedDescribes(env: Env, d: D.Tree, place: Place, lock: Lock, items: seq<Json>)
    requires env.Lawful() && D.WellFormed(d) && ReportOk(d, place, Arr(items)) && Generable(env, d, place)
    ensures Describes(env, d, place, lock, ManifestOf(env, d, place, lock, WithDigests(env, d, place, items)))
  {
    DigestedReportOk(env, d, place, items);
  }

  /**
   A manifest is generated for `d`. If some tree verifies later with that manifest in place, everything the manifest
   records is as it was in `d`. Nothing is assumed of the places the outputs are written to: where generation itself
   overwrites something recorded, the result does not verify.
   */
  lemma VerifiedMeansUnchanged(env: Env, d: D.Tree, place: Place, lock: Lock, items: seq<Json>, later: D.Tree)
    requires env.Lawful() && Comparable(env, d, later)
    requires ReportOk(d, place, Arr(items)) && Generable(env, d, place)
    requires var m := ManifestOf(env, d, place, lock, WithDigests(env, d, place, items));
             ReadText(env, later, place.ManifestPath()) == Some(env.dump(m))
    requires Verifies(env, later, place, lock)
    ensures Unchanged(d, later, place, WithDigests(env, d, place, items))
  {
    GeneratedDescribes(env, d, place, lock, items);
    VerifiedIsDescribed(env, later, place, lock);
    OneManifestOneTree(env, d, later, place, lock, ManifestOf(env, d, place, lock, WithDigests(env, d, place, items)));
  }

  // ---- Roles ----

  lemma {:induction false} WithRoleMeans(artifacts: seq<Artifact>, role: string)
    ensures forall a :: a in WithRole(artifacts, role) <==> a in artifacts && a.role == role
    ensures |WithRole(artifacts, role)| == 1 ==>
              forall i, j :: 0 <= i < j < |artifacts| ==> artifacts[i].role != role || artifacts[j].role != role
  {
    if artifacts != [] {
      var rest := artifacts[1..];
      WithRoleMeans(rest, role);
      assert artifacts == [artifacts[0]] + rest;
      if |WithRole(artifacts, role)| == 1 {
        forall i, j | 0 <= i < j < |artifacts| ensures artifacts[i].role != role || artifacts[j].role != role {
          assert artifacts[j] == rest[j - 1] && artifacts[j] in rest;
          assert i > 0 ==> artifacts[i] == rest[i - 1];
        }
      }
    }
  }

  /** In an accepted tree each of the three required roles belongs to exactly one file or link under the root. */
  lemma RequiredRolesAreUnique(env: Env, d: D.Tree, place: Place, role: string)
    requires RequiredOk(d, place, Collection(env, d, place)) && role in {WINE, FEX_ARM64EC, FEX_WOW64}
    ensures exists p :: SoleHolder(d, place, role, p)
  {
    assert RoleFile(d, place, Collection(env, d, place), role).Some?;
    MatchedRoleIsUnique(env, d, place, role);
  }

  ghost predicate SoleHolder(d: D.Tree, place: Place, role: string, p: D.Path) {
    && p in Leaves(d, place.Root()) && Role(Relative(place, p)) == role
    && forall q :: q in Leaves(d, place.Root()) && Role(Relative(place, q)) == role ==> q == p
  }

  lemma MatchedRoleIsUnique(env: Env, d: D.Tree, place: Place, role: string)
    requires |WithRole(Collection(env, d, place), role)| == 1
    ensures exists p :: SoleHolder(d, place, role, p)
  {
    D.ListingIsSorted(Leaves(d, place.Root()));
    var artifacts, paths := Collection(env, d, place), D.Listing(Leaves(d, place.Root()));
    WithRoleMeans(artifacts, role);
    assert WithRole(artifacts, role)[0] in WithRole(artifacts, role);
    var i :| 0 <= i < |artifacts| && artifacts[i].role == role;
    assert paths[i] in paths;
    assert artifacts[i] == ArtifactOf(env, d, place, paths[i]);
    forall q | q in Leaves(d, place.Root()) && Role(Relative(place, q)) == role ensures q == paths[i] {
      OnlyAt(env, d, place, role, i, q);
    }
    assert SoleHolder(d, place, role, paths[i]);
  }

  lemma OnlyAt(env: Env, d: D.Tree, place: Place, role: string, i: nat, q: D.Path)
    requires forall j, k :: 0 <= j < k < |Collection(env, d, place)| ==>
               Collection(env, d, place)[j].role != role || Collection(env, d, place)[k].role != role
    requires i < |Collection(env, d, place)| && Collection(env, d, place)[i].role == role
    requires q in Leaves(d, place.Root()) && Role(Relative(place, q)) == role
    ensures i < |D.Listing(Leaves(d, place.Root()))| && q == D.Listing(Leaves(d, place.Root()))[i]
  {
    var j := LeavesListed(env, d, place, q);
    assert Collection(env, d, place)[j].role == role;
  }
}
