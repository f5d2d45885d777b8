/** The two commands: `generate_manifest` and `verify_manifest`, with the test-report checks they share. */
module ManifestCommands {
  import opened Checksums
  import opened Manifest
  import opened Options
  import opened SafePath
  import opened Text
  import D = Disk

  // ---- Test reports ----

  predicate HasStrings(j: Json, keys: set<string>) {
    j.Obj? && j.fields.Keys == keys && forall k :: k in keys ==> j.fields[k].Str?
  }

  const REPORT_KEYS: set<string> := {"name", "status", "log"}
  const TEST_KEYS: set<string> := {"name", "status", "log", "sha256"}
  const STATUSES: set<string> := {"PASS", "FAIL", "BLOCKED", "UNVERIFIED"}

  function LogPath(place: Place, log: string): D.Path {
    place.runtime + Split(log, '/')
  }

  function LogFile(d: D.Tree, place: Place, log: string): (r: Option<D.Node>)
    ensures r.Some? ==> r.value.File?
  {
    InsideFile(d, LogPath(place, log), place.runtime)
  }

  /** One entry of a test report, apart from the uniqueness of its name. */
  predicate ReportEntryOk(d: D.Tree, place: Place, j: Json) {
    && HasStrings(j, REPORT_KEYS)
    && j.fields["name"].s != "" && j.fields["status"].s in STATUSES
    && Accepts(j.fields["log"].s, false)
    && LogFile(d, place, j.fields["log"].s).Some?
  }

  /** One entry of a manifest's test list, apart from the uniqueness of its name. */
  predicate TestEntryOk(env: Env, d: D.Tree, place: Place, j: Json) {
    && HasStrings(j, TEST_KEYS)
    && j.fields["name"].s != "" && j.fields["status"].s in STATUSES
    && Accepts(j.fields["log"].s, false)
    && IsDigest(j.fields["sha256"].s)
    && var file := LogFile(d, place, j.fields["log"].s);
    && file.Some? && env.sha(file.value.data) == j.fields["sha256"].s
  }

  function NameOf(j: Json): string {
    if j.Obj? && "name" in j.fields && j.fields["name"].Str? then j.fields["name"].s else ""
  }

  ghost predicate DistinctNames(items: seq<Json>) {
    forall i, j :: 0 <= i < j < |items| ==> NameOf(items[i]) != NameOf(items[j])
  }

  ghost predicate ReportOk(d: D.Tree, place: Place, raw: Json) {
    && raw.Arr?
    && (forall i :: 0 <= i < |raw.items| ==> ReportEntryOk(d, place, raw.items[i]))
    && DistinctNames(raw.items)
  }

  ghost predicate TestsOk(env: Env, d: D.Tree, place: Place, raw: Json) {
    && raw.Arr?
    && (forall i :: 0 <= i < |raw.items| ==> TestEntryOk(env, d, place, raw.items[i]))
    && DistinctNames(raw.items)
  }

  /** A report entry with the digest of its log. */
  function WithDigest(env: Env, d: D.Tree, place: Place, j: Json): Json
    requires ReportEntryOk(d, place, j)
  {
    Obj(j.fields["sha256" := Str(env.sha(LogFile(d, place, j.fields["log"].s).value.data))])
  }

  /** The loop both test validators run; what one entry must look like is left to `ok`. */
  method CheckEntries(ok: Json -> bool, name: Json -> string, items: seq<Json>) returns (accepted: bool)
    ensures accepted <==>
              && (forall i :: 0 <= i < |items| ==> ok(items[i]))
              && (forall i, j :: 0 <= i < j < |items| ==> name(items[i]) != name(items[j]))
  {
    var seen: set<string> := {};
    for k := 0 to |items|
      invariant forall i :: 0 <= i < k ==> ok(items[i])
      invariant forall n :: n in seen <==> exists i :: 0 <= i < k && name(items[i]) == n
      invariant forall i, j :: 0 <= i < j < k ==> name(items[i]) != name(items[j])
    {
      if !ok(items[k]) {
        return false;
      }
      if name(items[k]) in seen {
        ghost var i :| 0 <= i < k && name(items[i]) == name(items[k]);
        return false;
      }
      seen := seen + {name(items[k])};
    }
    return true;
  }

  /** The report's entries, each with the digest of its log. */
  function WithDigests(env: Env, d: D.Tree, place: Place, items: seq<Json>): (tests: seq<Json>)
    requires forall i :: 0 <= i < |items| ==> ReportEntryOk(d, place, items[i])
    ensures |tests| == |items|
    ensures forall i :: 0 <= i < |items| ==> tests[i] == WithDigest(env, d, place, items[i])
  {
    seq(|items|, i requires 0 <= i < |items| => WithDigest(env, d, place, items[i]))
  }

  /** `validate_test_report`. */
  method ValidateTestReport(env: Env, d: D.Tree, place: Place, raw: Json) returns (r: Option<seq<Json>>)
    ensures r.Some? <==> ReportOk(d, place, raw)
    ensures r.Some? ==> r.value == WithDigests(env, d, place, raw.items)
  {
    if !raw.Arr? {
      return None;
    }
    var accepted := CheckEntries(j => ReportEntryOk(d, place, j), NameOf, raw.items);
    if !accepted {
      return None;
    }
    return Some(WithDigests(env, d, place, raw.items));
  }

  /** `validate_manifest_tests`. */
  method ValidateManifestTests(env: Env, d: D.Tree, place: Place, raw: Json) returns (ok: bool)
    ensures ok == TestsOk(env, d, place, raw)
  {
    if !raw.Arr? {
      return false;
    }
    ok := CheckEntries(j => TestEntryOk(env, d, place, j), NameOf, raw.items);
  }

  // ---- Artifact entries of a manifest ----

  const ARTIFACT_KEYS: set<string> := {"path", "sha256", "role", "kind", "link_target"}

  function ToJson(a: Artifact): Json {
    Obj(map["path" := Str(a.path), "sha256" := Str(a.sha256), "role" := Str(a.role), "kind" := Str(a.kind),
            "link_target" := if a.linkTarget.Some? then Str(a.linkTarget.value) else Null])
  }

  function AllToJson(artifacts: seq<Artifact>): (items: seq<Json>)
    ensures |items| == |artifacts|
    ensures forall i :: 0 <= i < |artifacts| ==> items[i] == ToJson(artifacts[i])
  {
    seq(|artifacts|, i requires 0 <= i < |artifacts| => ToJson(artifacts[i]))
  }

  predicate FieldsOk(a: Artifact) {
    && Accepts(a.path, true)
    && IsDigest(a.sha256)
    && a.role == Role(a.path)
    && ((a.kind == "file" && a.linkTarget.None?)
        || (a.kind == "symlink" && a.linkTarget.Some? && a.linkTarget.value != "" && !IsAbsolute(a.linkTarget.value)))
  }

  /** The checks `verify_manifest` makes on one artifact object; a duplicate path is checked apart. */
  function ReadArtifact(j: Json): (r: Option<Artifact>)
    ensures r.Some? <==> exists a :: FieldsOk(a) && j == ToJson(a)
    ensures r.Some? ==> FieldsOk(r.value) && j == ToJson(r.value)
  {
    if !j.Obj? || j.fields.Keys != ARTIFACT_KEYS
       || !(j.fields["path"].Str? && j.fields["sha256"].Str? && j.fields["role"].Str? && j.fields["kind"].Str?)
       || !(j.fields["link_target"].Str? || j.fields["link_target"].Null?) then None
    else
      var target := j.fields["link_target"];
      var a := Artifact(j.fields["path"].s, j.fields["sha256"].s, j.fields["role"].s, j.fields["kind"].s,
                        if target.Str? then Some(target.s) else None);
      assert j.fields == ToJson(a).fields;
      if FieldsOk(a) then Some(a) else None
  }

  ghost predicate DistinctArtifacts(artifacts: seq<Artifact>) {
    forall i, j :: 0 <= i < j < |artifacts| ==> artifacts[i].path != artifacts[j].path
  }

  /** The loop of `verify_manifest` over the raw artifact objects; what one object must look like is left to `read`. */
  method ReadArtifacts(read: Json -> Option<Artifact>, items: seq<Json>) returns (r: Option<seq<Artifact>>)
    ensures r.Some? ==>
              && |r.value| == |items|
              && (forall i :: 0 <= i < |items| ==> read(items[i]) == Some(r.value[i]))
              && DistinctArtifacts(r.value)
    ensures r.None? ==>
              || (exists i :: 0 <= i < |items| && read(items[i]).None?)
              || (exists i, j :: 0 <= i < j < |items| && read(items[i]).Some? && read(items[j]).Some?
                                 && read(items[i]).value.path == read(items[j]).value.path)
  {
    var artifacts: seq<Artifact> := [];
    var seen: set<string> := {};
    for k := 0 to |items|
      invariant |artifacts| == k
      invariant forall i :: 0 <= i < k ==> read(items[i]) == Some(artifacts[i])
      invariant forall path :: path in seen <==> exists i :: 0 <= i < k && artifacts[i].path == path
      invariant DistinctArtifacts(artifacts)
    {
      var a := read(items[k]);
      if a.None? {
        return None;
      }
      if a.value.path in seen {
        ghost var i :| 0 <= i < k && artifacts[i].path == a.value.path;
        assert read(items[i]) == Some(artifacts[i]);
        return None;
      }
      seen := seen + {a.value.path};
      artifacts := artifacts + [a.value];
    }
    return Some(artifacts);
  }

  // ---- Verify ----

  const MANIFEST_KEYS: set<string> := {"schema_version", "stage", "platform", "source_lock", "toolchain",
                                       "dependencies", "patches", "artifacts", "tests"}
  const PLATFORM: Json := Obj(map["os" := Str("linux"), "architecture" := Str("aarch64")])

  function BuildManifest(lock: Lock, patches: Json, artifacts: seq<Artifact>, tests: seq<Json>): Json {
    Obj(map["schema_version" := Num(1), "stage" := Str("G1"), "platform" := PLATFORM,
            "source_lock" := lock.sourceLock, "toolchain" := lock.toolchain, "dependencies" := lock.dependencies,
            "patches" := patches, "artifacts" := Arr(AllToJson(artifacts)), "tests" := Arr(tests)])
  }

  function EntriesOf(artifacts: seq<Artifact>): (entries: seq<Entry>)
    ensures |entries| == |artifacts|
    ensures forall i :: 0 <= i < |artifacts| ==> entries[i] == Entry(artifacts[i].sha256, artifacts[i].path)
  {
    seq(|artifacts|, i requires 0 <= i < |artifacts| => Entry(artifacts[i].sha256, artifacts[i].path))
  }

  /** `text` lists the artifacts' paths and digests, in whatever order. */
  ghost predicate ListsArtifacts(text: string, artifacts: seq<Artifact>) {
    exists es: seq<Entry> :: Listing(text, es) && ToMap(es) == ToMap(EntriesOf(artifacts))
  }

  /** The checksum file lists exactly the artifacts. */
  ghost predicate ChecksumsOk(env: Env, d: D.Tree, place: Place, artifacts: seq<Artifact>) {
    var text := ReadText(env, d, place.ChecksumPath());
    text.Some? && ListsArtifacts(text.value, artifacts)
  }

  /**
   What it means to verify: the stored manifest is the one that would be generated now, for the tests it names, whose
   logs are unchanged; and the checksum file agrees with it.
   */
  ghost predicate Verifies(env: Env, d: D.Tree, place: Place, lock: Lock) {
    && Collectable(d, place)
    && var artifacts := Collection(env, d, place);
    && var patches := AppliedPatches(env, d, place);
    && patches.Some?
    && RequiredOk(d, place, artifacts)
    && ChecksumsOk(env, d, place, artifacts)
    && exists tests: seq<Json> ::
         && TestsOk(env, d, place, Arr(tests))
         && ReadJson(env, d, place.ManifestPath()) == Some(BuildManifest(lock, patches.value, artifacts, tests))
  }

  /** What the file system lists: the runtime's root and the two patch directories. */
  datatype Scan = Scan(root: seq<D.Path>, wine: seq<D.Path>, fex: seq<D.Path>) {
    ghost predicate Of(d: D.Tree, place: Place) {
      && D.Enumerates(Below(d, place.Root()), root)
      && D.Enumerates(PatchesIn(d, place.PatchDir("wine")), wine)
      && D.Enumerates(PatchesIn(d, place.PatchDir("fex")), fex)
    }
  }

  /** The top-level checks on the parsed manifest. */
  predicate TopLevelOk(m: Json, lock: Lock) {
    && m.Obj? && m.fields.Keys == MANIFEST_KEYS
    && m.fields["schema_version"] == Num(1) && m.fields["stage"] == Str("G1")
    && m.fields["platform"] == PLATFORM
    && m.fields["source_lock"] == lock.sourceLock
    && m.fields["toolchain"] == lock.toolchain
    && m.fields["dependencies"] == lock.dependencies
  }

  lemma TopLevelMeans(m: Json, lock: Lock, patches: Json, artifacts: seq<Artifact>, tests: seq<Json>)
    ensures m == BuildManifest(lock, patches, artifacts, tests) <==>
              && TopLevelOk(m, lock) && m.fields["patches"] == patches
              && m.fields["artifacts"] == Arr(AllToJson(artifacts)) && m.fields["tests"] == Arr(tests)
  {
    var built := BuildManifest(lock, patches, artifacts, tests);
    assert built.fields.Keys == MANIFEST_KEYS;
    if TopLevelOk(m, lock) && m.fields["patches"] == patches
       && m.fields["artifacts"] == Arr(AllToJson(artifacts)) && m.fields["tests"] == Arr(tests) {
      assert m.fields == built.fields;
    }
  }

  // ---- The entries of a collection ----

  lemma ToJsonInjective(a: Artifact, b: Artifact)
    requires ToJson(a) == ToJson(b)
    ensures a == b
  {
    var f, g := ToJson(a).fields, ToJson(b).fields;
    assert f["path"] == g["path"] && f["sha256"] == g["sha256"] && f["role"] == g["role"] && f["kind"] == g["kind"];
    assert f["link_target"] == g["link_target"];
  }

  lemma ReadBack(a: Artifact)
    requires FieldsOk(a)
    ensures ReadArtifact(ToJson(a)) == Some(a)
  {
    var r := ReadArtifact(ToJson(a));
    ToJsonInjective(a, r.value);
  }

  /** Different leaves have different artifact paths. */
  lemma RelativeInjective(d: D.Tree, place: Place, p: D.Path, q: D.Path)
    requires D.WellFormed(d) && p in d && q in d && place.Root() < p && place.Root() < q
    requires Relative(place, p) == Relative(place, q)
    ensures p == q
  {
    var n := |place.runtime|;
    BelowRuntime(d, place, p);
    BelowRuntime(d, place, q);
    JoinInjective(p[n..], q[n..], '/');
  }

  lemma BelowRuntime(d: D.Tree, place: Place, p: D.Path)
    requires D.WellFormed(d) && p in d && place.Root() < p
    ensures var names := p[|place.runtime|..];
            && p == place.runtime + names
            && |names| >= 2 && names[0] == "root" && AllPlain(names)
            && forall i :: 0 <= i < |names| ==> Free(names[i], '/')
  {
    D.NamesArePlain(d, p);
    BelowName(place.runtime, "root", p);
  }

  lemma BelowName(base: D.Path, name: string, p: D.Path)
    requires AllPlain(p) && base + [name] < p
    ensures var names := p[|base|..];
            && p == base + names
            && |names| >= 2 && names[0] == name && AllPlain(names)
            && forall i :: 0 <= i < |names| ==> Free(names[i], '/')
  {
    assert (base + [name])[..|base|] == base && (base + [name])[|base|] == name;
    var names := p[|base|..];
    forall i | 0 <= i < |names| ensures Plain(names[i]) {
      assert names[i] == p[|base| + i];
    }
  }

  /** The field checks never refuse what the final comparison would accept. */
  lemma CollectionReadsBack(env: Env, d: D.Tree, place: Place)
    requires env.Lawful() && D.WellFormed(d) && Collectable(d, place)
    ensures var artifacts := Collection(env, d, place);
            && (forall i :: 0 <= i < |artifacts| ==> FieldsOk(artifacts[i]))
            && (forall i :: 0 <= i < |artifacts| ==> ReadArtifact(ToJson(artifacts[i])) == Some(artifacts[i]))
            && DistinctArtifacts(artifacts)
  {
    D.ListingIsSorted(Leaves(d, place.Root()));
    var paths := D.Listing(Leaves(d, place.Root()));
    var artifacts := Collection(env, d, place);
    forall i | 0 <= i < |artifacts|
      ensures FieldsOk(artifacts[i]) && ReadArtifact(ToJson(artifacts[i])) == Some(artifacts[i])
    {
      assert paths[i] in paths;
      LeafFieldsOk(env, d, place, paths[i]);
      ReadBack(artifacts[i]);
    }
    CollectionIsDistinct(env, d, place);
  }

  lemma CollectionIsDistinct(env: Env, d: D.Tree, place: Place)
    requires D.WellFormed(d)
    ensures DistinctArtifacts(Collection(env, d, place))
  {
    D.ListingIsSorted(Leaves(d, place.Root()));
    var paths := D.Listing(Leaves(d, place.Root()));
    var artifacts := Collection(env, d, place);
    forall i, j | 0 <= i < j < |artifacts| ensures artifacts[i].path != artifacts[j].path {
      assert paths[i] in paths && paths[j] in paths;
      if Relative(place, paths[i]) == Relative(place, paths[j]) {
        RelativeInjective(d, place, paths[i], paths[j]);
      }
    }
  }

  lemma LeafFieldsOk(env: Env, d: D.Tree, place: Place, p: D.Path)
    requires env.Lawful() && D.WellFormed(d) && p in Leaves(d, place.Root()) && LeafAcceptable(d, place, p)
    ensures FieldsOk(ArtifactOf(env, d, place, p))
  {
    assert D.Placed(d, p);
  }

  /** The artifact part of `verify_manifest`: the stored list is the one a fresh collection gives. */
  method VerifyArtifacts(env: Env, d: D.Tree, place: Place, raw: Json, listing: seq<D.Path>)
    returns (r: Option<seq<Artifact>>)
    requires env.Lawful() && D.WellFormed(d) && D.Enumerates(Below(d, place.Root()), listing)
    ensures r.Some? <==> Collectable(d, place) && raw == Arr(AllToJson(Collection(env, d, place)))
    ensures r.Some? ==> r.value == Collection(env, d, place)
  {
    if !raw.Arr? {
      return None;
    }
    var artifacts := ReadArtifacts(ReadArtifact, raw.items);
    if artifacts.None? {
      RefusedIsForeign(env, d, place, raw.items);
      return None;
    }
    AcceptedIsJson(raw.items, artifacts.value);
    var actual := CollectArtifacts(env, d, place, listing);
    if actual.None? {
      return None;
    }
    if artifacts.value != actual.value {
      if raw.items == AllToJson(actual.value) {
        SameJsonSameArtifacts(artifacts.value, actual.value);
      }
      return None;
    }
    return artifacts;
  }

  lemma AcceptedIsJson(items: seq<Json>, artifacts: seq<Artifact>)
    requires |artifacts| == |items|
    requires forall i :: 0 <= i < |items| ==> ReadArtifact(items[i]) == Some(artifacts[i])
    ensures AllToJson(artifacts) == items
  {
    forall i | 0 <= i < |items| ensures AllToJson(artifacts)[i] == items[i] {
      assert ReadArtifact(items[i]) == Some(artifacts[i]);
    }
  }

  /** A list with an object that does not read, or with a path read twice, is no tree's list. */
  lemma RefusedIsForeign(env: Env, d: D.Tree, place: Place, items: seq<Json>)
    requires env.Lawful() && D.WellFormed(d)
    requires || (exists i :: 0 <= i < |items| && ReadArtifact(items[i]).None?)
             || (exists i, j :: 0 <= i < j < |items| && ReadArtifact(items[i]).Some? && ReadArtifact(items[j]).Some?
                                && ReadArtifact(items[i]).value.path == ReadArtifact(items[j]).value.path)
    ensures Collectable(d, place) ==> items != AllToJson(Collection(env, d, place))
  {
    if Collectable(d, place) {
      CollectionReadsBack(env, d, place);
    }
  }

  /** `Verifies`, in the terms of the stored manifest's fields. */
  ghost predicate StoredOk(env: Env, d: D.Tree, place: Place, lock: Lock, m: Json) {
    && TopLevelOk(m, lock)
    && AppliedPatches(env, d, place) == Some(m.fields["patches"])
    && Collectable(d, place)
    && m.fields["artifacts"] == Arr(AllToJson(Collection(env, d, place)))
    && RequiredOk(d, place, Collection(env, d, place))
    && ChecksumsOk(env, d, place, Collection(env, d, place))
    && TestsOk(env, d, place, m.fields["tests"])
  }

  lemma StoredOkMeans(env: Env, d: D.Tree, place: Place, lock: Lock)
    ensures var stored := ReadJson(env, d, place.ManifestPath());
            Verifies(env, d, place, lock) <==> stored.Some? && StoredOk(env, d, place, lock, stored.value)
  {
    var stored := ReadJson(env, d, place.ManifestPath());
    var patches, artifacts := AppliedPatches(env, d, place), Collection(env, d, place);
    if Verifies(env, d, place, lock) {
      var tests :| TestsOk(env, d, place, Arr(tests))
                   && stored == Some(BuildManifest(lock, patches.value, artifacts, tests));
      TopLevelMeans(stored.value, lock, patches.value, artifacts, tests);
    }
    if stored.Some? && StoredOk(env, d, place, lock, stored.value) {
      var tests := stored.value.fields["tests"].items;
      TopLevelMeans(stored.value, lock, patches.value, artifacts, tests);
    }
  }

  /** `verify_manifest`. */
  method Verify(env: Env, d: D.Tree, place: Place, lock: Lock, scan: Scan) returns (ok: bool)
    requires env.Lawful() && D.WellFormed(d) && scan.Of(d, place)
    ensures ok == Verifies(env, d, place, lock)
  {
    StoredOkMeans(env, d, place, lock);
    var stored := ReadJson(env, d, place.ManifestPath());
    if stored.None? || !TopLevelOk(stored.value, lock) {
      return false;
    }
    var manifest := stored.value.fields;
    var patches := AppliedPatchEntries(env, d, place, scan.wine, scan.fex);
    if patches != Some(manifest["patches"]) {
      return false;
    }
    var artifacts := VerifyArtifacts(env, d, place, manifest["artifacts"], scan.root);
    if artifacts.None? {
      return false;
    }
    var required := ValidateRequired(d, place, artifacts.value);
    if !required {
      return false;
    }
    var sums := VerifyChecksums(env, d, place, artifacts.value);
    if !sums {
      return false;
    }
    ok := ValidateManifestTests(env, d, place, manifest["tests"]);
  }

  lemma SameJsonSameArtifacts(a: seq<Artifact>, b: seq<Artifact>)
    requires AllToJson(a) == AllToJson(b)
    ensures a == b
  {
    forall i | 0 <= i < |a| ensures a[i] == b[i] {
      assert AllToJson(a)[i] == AllToJson(b)[i];
      ToJsonInjective(a[i], b[i]);
    }
  }

  method VerifyChecksums(env: Env, d: D.Tree, place: Place, artifacts: seq<Artifact>) returns (ok: bool)
    ensures ok == ChecksumsOk(env, d, place, artifacts)
  {
    var text := ReadText(env, d, place.ChecksumPath());
    if text.None? {
      return false;
    }
    var sums;
    ghost var entries;
    sums, entries := Checksums.Parse(text.value);
    if sums.None? {
      return false;
    }
    forall es | Listing(text.value, es) ensures es == entries {
      ListingIsUnique(text.value, es, entries);
    }
    return sums.value == ToMap(EntriesOf(artifacts));
  }

  // ---- Generate ----

  /** `path.write_text`: through links, to a file that is replaced or created. */
  function WriteText(env: Env, d: D.Tree, p: D.Path, text: string): Option<D.Tree> {
    var w := D.Landing(d, p);
    if w.None? || (w.value in d && !d[w.value].File?) then None
    else Some(d[w.value := D.File(env.encode(text), w.value in d && d[w.value].runnable)])
  }

  /** What a command leaves on disk, and whether it succeeded. */
  datatype Generation = Generation(ok: bool, tree: D.Tree)

  /** The two writes, one after the other; what was written before a failure stays. */
  function WriteBoth(env: Env, d: D.Tree, place: Place, manifest: Json, artifacts: seq<Artifact>): Generation {
    var first := WriteText(env, d, place.ManifestPath(), env.dump(manifest));
    if first.None? then Generation(false, d)
    else
      var second := WriteText(env, first.value, place.ChecksumPath(), Print(EntriesOf(artifacts)));
      if second.None? then Generation(false, first.value) else Generation(true, second.value)
  }

  /** The manifest of a tree. */
  ghost function ManifestOf(env: Env, d: D.Tree, place: Place, lock: Lock, tests: seq<Json>): Json
    requires AppliedPatches(env, d, place).Some?
  {
    BuildManifest(lock, AppliedPatches(env, d, place).value, Collection(env, d, place), tests)
  }

  /** The checks before anything is written. */
  ghost predicate Generable(env: Env, d: D.Tree, place: Place) {
    Collectable(d, place) && AppliedPatches(env, d, place).Some? && RequiredOk(d, place, Collection(env, d, place))
  }

  ghost function Generated(env: Env, d: D.Tree, place: Place, lock: Lock, tests: seq<Json>): Generation {
    if Generable(env, d, place) then
      WriteBoth(env, d, place, ManifestOf(env, d, place, lock, tests), Collection(env, d, place))
    else Generation(false, d)
  }

  /** `generate_manifest`. */
  method Generate(env: Env, d: D.Tree, place: Place, lock: Lock, tests: seq<Json>, scan: Scan)
    returns (r: Generation)
    requires scan.Of(d, place)
    ensures r == Generated(env, d, place, lock, tests)
  {
    var artifacts := CollectArtifacts(env, d, place, scan.root);
    if artifacts.None? {
      return Generation(false, d);
    }
    var required := ValidateRequired(d, place, artifacts.value);
    if !required {
      return Generation(false, d);
    }
    var patches := AppliedPatchEntries(env, d, place, scan.wine, scan.fex);
    if patches.None? {
      return Generation(false, d);
    }
    return WriteBoth(env, d, place, BuildManifest(lock, patches.value, artifacts.value, tests), artifacts.value);
  }
}
