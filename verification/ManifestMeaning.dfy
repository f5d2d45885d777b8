/**
 What the records of a manifest say about the tree, in terms of its entries alone: which artifacts, patches, required
 files and tests a tree must have for a manifest to be generated and to verify.
 */
module ManifestMeaning {
  import opened Checksums
  import opened Manifest
  import opened ManifestBreaks
  import opened ManifestChange
  import opened ManifestCommands
  import opened Options
  import opened SafePath
  import opened Text
  import D = Disk
  import Elf
  import Pe

  // ---- Artifacts ----

  lemma LoaderPath(names: seq<string>)
    requires names != [] && AllPlain(names)
    ensures Join(names, '/') == "root/bin/wine" <==> names == ["root", "bin", "wine"]
  {
    var loader := ["root", "bin", "wine"];
    assert loader[1..] == ["bin", "wine"] && ["bin", "wine"][1..] == ["wine"];
    assert Join(["bin", "wine"], '/') == "bin/wine";
    assert Join(loader, '/') == "root/bin/wine";
    if Join(names, '/') == Join(loader, '/') {
      JoinInjective(names, loader, '/');
    }
  }

  lemma FinalNameMeans(names: seq<string>)
    requires names != [] && AllPlain(names)
    ensures FinalName(Join(names, '/')) == names[|names| - 1]
  {
    SplitJoin(names, '/');
    KeepAll(names);
    NamesOfPath(Join(names, '/'), names);
  }

  lemma NamesOfPath(value: string, names: seq<string>)
    requires names != [] && KeepNames(Split(value, '/')) == names
    ensures FinalName(value) == names[|names| - 1]
  {
  }

  /** The role of a file, by its names below the runtime. */
  ghost function RoleOf(names: seq<string>): string
    requires names != []
  {
    var last := names[|names| - 1];
    if names == ["root", "bin", "wine"] then "wine-loader"
    else if last == "libarm64ecfex.dll" then "fex-arm64ec-module"
    else if last == "libwow64fex.dll" then "fex-wow64-module"
    else "runtime-file"
  }

  /** A file's role is decided by its whole path or by its last name. */
  lemma RoleMeans(names: seq<string>)
    requires names != [] && AllPlain(names)
    ensures Role(Join(names, '/')) == RoleOf(names)
  {
    LoaderPath(names);
    FinalNameMeans(names);
  }

  /** The record of the file or link `names` below the runtime. */
  ghost predicate Records(env: Env, node: D.Node, names: seq<string>, a: Artifact) {
    && names != [] && Split(a.path, '/') == names
    && a.role == RoleOf(names)
    && match node
       case File(data, _) => a.kind == "file" && a.linkTarget == None && a.sha256 == env.sha(data)
       case Link(target) =>
         a.kind == "symlink" && a.linkTarget == Some(target) && a.sha256 == env.sha(env.encode(target))
       case _ => false
  }

  lemma ArtifactRecords(env: Env, d: D.Tree, place: Place, p: D.Path)
    requires D.WellFormed(d) && p in Leaves(d, place.Root())
    ensures Records(env, d[p], p[|place.runtime|..], ArtifactOf(env, d, place, p))
  {
    BelowRuntime(d, place, p);
    SplitJoin(p[|place.runtime|..], '/');
    RoleMeans(p[|place.runtime|..]);
    FieldsRecord(env, d, place, p, p[|place.runtime|..]);
  }

  lemma FieldsRecord(env: Env, d: D.Tree, place: Place, p: D.Path, names: seq<string>)
    requires IsLeaf(d, p) && |place.runtime| <= |p| && names == p[|place.runtime|..] && names != []
    requires Split(Join(names, '/'), '/') == names
    requires Role(Join(names, '/')) == RoleOf(names)
    ensures Records(env, d[p], names, ArtifactOf(env, d, place, p))
  {
  }

  /** The collection records each file and link below the root once, in the order of the paths, and nothing else. */
  lemma CollectionRecords(env: Env, d: D.Tree, place: Place) returns (paths: seq<D.Path>)
    requires D.WellFormed(d)
    ensures forall p :: p in paths <==> p in d && place.Root() < p && (d[p].File? || d[p].Link?)
    ensures forall i, j :: 0 <= i < j < |paths| ==> PathLeq(paths[i], paths[j]) && paths[i] != paths[j]
    ensures |Collection(env, d, place)| == |paths|
    ensures forall i :: 0 <= i < |paths| ==>
              && paths[i] in d && |place.runtime| <= |paths[i]|
              && Records(env, d[paths[i]], paths[i][|place.runtime|..], Collection(env, d, place)[i])
  {
    paths := D.Listing(Leaves(d, place.Root()));
    D.ListingIsSorted(Leaves(d, place.Root()));
    forall i | 0 <= i < |paths|
      ensures paths[i] in d && |place.runtime| <= |paths[i]|
      ensures Records(env, d[paths[i]], paths[i][|place.runtime|..], Collection(env, d, place)[i])
    {
      assert paths[i] in paths;
      ArtifactRecords(env, d, place, paths[i]);
    }
  }

  /** A link directly below the root that climbs to a file beside the root is refused, with whatever it stands among. */
  lemma EscapingLinkIsRefused(d: D.Tree, place: Place, name: string, file: string)
    requires D.WellFormed(d) && place.Root() + [name] in d && d[place.Root() + [name]] == D.Link("../" + file)
    requires Plain(file) && file != "root" && place.runtime + [file] in d && d[place.runtime + [file]].File?
    ensures !Collectable(d, place)
  {
    var root, target := place.Root(), "../" + file;
    if D.IsDir(d, root) {
      SplitFirst("..", file, '/');
      SplitPiece(file, '/');
      assert target == ".." + ['/'] + file;
      assert Split(target, '/') == ["..", file];
      D.RealPathsLead(d, root, [name]);
      assert D.Placed(d, root + [name]);
      AbsoluteMeans(target);
      assert ["..", file] + [name][1..] == ["..", file];
      LedOut(d, place.runtime, root, file, D.LINK_LIMIT - 1);
      assert D.Resolve(d, root + [name]) == Some(place.runtime + [file]);
      assert !(root <= place.runtime + [file]) by {
        assert root[|place.runtime|] == "root" && (place.runtime + [file])[|place.runtime|] == file;
      }
      assert root < root + [name];
      CollectableMeans(d, place);
    }
  }

  lemma LedOut(d: D.Tree, runtime: D.Path, root: D.Path, file: string, links: nat)
    requires D.WellFormed(d) && D.IsDir(d, root) && root == runtime + ["root"]
    requires Plain(file) && runtime + [file] in d && d[runtime + [file]].File?
    ensures D.Follow(d, root, ["..", file], links) == Some(runtime + [file])
  {
    assert root[..|root| - 1] == runtime;
    assert D.Placed(d, root) && D.IsDir(d, runtime);
    assert ["..", file][1..] == [file] && [file][1..] == [];
    assert D.Follow(d, runtime, [file], links) == D.Follow(d, runtime + [file], [], links);
  }

  // ---- Required files ----

  /** The path leads to this regular file, and the file lies inside the directory that `top` leads to. */
  ghost predicate LeadsInside(d: D.Tree, path: D.Path, top: D.Path, node: D.Node) {
    && D.Resolve(d, top).Some? && D.Resolve(d, path).Some?
    && var found := D.Resolve(d, path).value;
    && D.Resolve(d, top).value <= found
    && found in d && d[found] == node && node.File?
  }

  lemma InsideMeans(d: D.Tree, path: D.Path, top: D.Path, node: D.Node)
    ensures InsideFile(d, path, top) == Some(node) <==> LeadsInside(d, path, top, node)
  {
  }

  ghost predicate OnlyHolder(artifacts: seq<Artifact>, role: string, i: int) {
    && 0 <= i < |artifacts| && artifacts[i].role == role
    && forall j :: 0 <= j < |artifacts| && artifacts[j].role == role ==> j == i
  }

  /** The one artifact of this role is this file, inside the runtime's root. */
  ghost predicate RoleLeads(d: D.Tree, place: Place, artifacts: seq<Artifact>, role: string, node: D.Node) {
    exists i :: OnlyHolder(artifacts, role, i)
      && LeadsInside(d, place.runtime + Split(artifacts[i].path, '/'), place.runtime + ["root"], node)
  }

  lemma RoleFileMeans(d: D.Tree, place: Place, artifacts: seq<Artifact>, role: string, node: D.Node)
    ensures RoleFile(d, place, artifacts, role) == Some(node) <==> RoleLeads(d, place, artifacts, role, node)
  {
    WithRoleMeans(artifacts, role);
    if |WithRole(artifacts, role)| == 1 {
      var a := WithRole(artifacts, role)[0];
      assert a in WithRole(artifacts, role);
      var i :| 0 <= i < |artifacts| && artifacts[i] == a;
      assert OnlyHolder(artifacts, role, i);
    }
    if i :| OnlyHolder(artifacts, role, i) {
      WithRoleSingle(artifacts, role, i);
    }
  }

  /** What a runtime must have: a runnable AArch64 loader, an ARM64EC module and an ARM64 module. */
  lemma RequiredMeans(d: D.Tree, place: Place, artifacts: seq<Artifact>)
    ensures RequiredOk(d, place, artifacts) <==>
              exists wine, arm64ec, wow64 ::
                && RoleLeads(d, place, artifacts, "wine-loader", wine)
                && RoleLeads(d, place, artifacts, "fex-arm64ec-module", arm64ec)
                && RoleLeads(d, place, artifacts, "fex-wow64-module", wow64)
                && wine.runnable && Elf.WellFormed(wine.data)
                && Pe.WellFormed(arm64ec.data, 0xA641) && Pe.WellFormed(wow64.data, 0xAA64)
  {
    forall role, node ensures RoleFile(d, place, artifacts, role) == Some(node)
                              <==> RoleLeads(d, place, artifacts, role, node)
    {
      RoleFileMeans(d, place, artifacts, role, node);
    }
  }

  // ---- Patches ----

  /** The entry of the patch with this name. */
  ghost predicate NamesPatch(env: Env, d: D.Tree, place: Place, dependency: string, name: string, e: Json) {
    var p := place.repository + ["patches", dependency, name];
    && p in d && d[p].File?
    && e == Obj(map["dependency" := Str(dependency), "path" := Str("patches/" + dependency + "/" + name),
                    "sha256" := Str(env.sha(d[p].data))])
  }

  lemma PatchPathText(dependency: string, name: string)
    ensures Join(["patches", dependency, name], '/') == "patches/" + dependency + "/" + name
  {
    assert ["patches", dependency, name][1..] == [dependency, name] && [dependency, name][1..] == [name];
    assert Join([dependency, name], '/') == dependency + "/" + name;
  }

  lemma EntryNamesPatch(env: Env, d: D.Tree, place: Place, dependency: string, name: string)
    requires place.PatchDir(dependency) + [name] in d && d[place.PatchDir(dependency) + [name]].File?
    ensures NamesPatch(env, d, place, dependency, name,
                       PatchEntry(env, d, place, dependency, place.PatchDir(dependency) + [name]))
  {
    var p := place.PatchDir(dependency) + [name];
    assert p == place.repository + ["patches", dependency, name];
    assert p[|place.repository|..] == ["patches", dependency, name];
    PatchPathText(dependency, name);
  }

  /** The entries are those of the patches with these names, one by one. */
  ghost predicate NamesPatches(env: Env, d: D.Tree, place: Place, dependency: string, names: seq<string>, e: seq<Json>)
  {
    && |e| == |names|
    && forall i :: 0 <= i < |names| ==> NamesPatch(env, d, place, dependency, names[i], e[i])
  }

  lemma EntriesByName(env: Env, d: D.Tree, place: Place, dependency: string) returns (names: seq<string>)
    requires PatchesAreFiles(d, place, dependency)
    ensures Ascending(names) && forall n :: n in names <==> HoldsPatch(d, place.PatchDir(dependency), n)
    ensures NamesPatches(env, d, place, dependency, names, EntriesIn(env, d, place, dependency))
  {
    var dir := place.PatchDir(dependency);
    names := ListedByName(d, dir);
    D.ListingIsSorted(PatchesIn(d, dir));
    forall i | 0 <= i < |names|
      ensures NamesPatch(env, d, place, dependency, names[i], EntriesIn(env, d, place, dependency)[i])
    {
      assert names[i] in names;
      PatchesMean(d, dir, dir + [names[i]]);
      EntryNamesPatch(env, d, place, dependency, names[i]);
    }
  }

  /** The patches of wine by name, then those of fex by name, each with its path in the repository and its digest. */
  lemma PatchEntriesByName(env: Env, d: D.Tree, place: Place) returns (wine: seq<string>, fex: seq<string>)
    requires PatchesReadable(d, place)
    ensures Ascending(wine) && forall n :: n in wine <==> HoldsPatch(d, place.repository + ["patches", "wine"], n)
    ensures Ascending(fex) && forall n :: n in fex <==> HoldsPatch(d, place.repository + ["patches", "fex"], n)
    ensures |PatchEntries(env, d, place)| == |wine| + |fex|
    ensures NamesPatches(env, d, place, "wine", wine, PatchEntries(env, d, place)[..|wine|])
    ensures NamesPatches(env, d, place, "fex", fex, PatchEntries(env, d, place)[|wine|..])
  {
    wine := EntriesByName(env, d, place, "wine");
    fex := EntriesByName(env, d, place, "fex");
    TwoParts(EntriesIn(env, d, place, "wine"), EntriesIn(env, d, place, "fex"));
  }

  lemma TwoParts(a: seq<Json>, b: seq<Json>)
    ensures |a + b| == |a| + |b| && (a + b)[..|a|] == a && (a + b)[|a|..] == b
  {
  }

  /** The directories are real ones, and everything named like a patch is a regular file. */
  lemma ReadableMeans(d: D.Tree, place: Place)
    ensures PatchesReadable(d, place) <==>
              && D.IsDir(d, place.repository + ["patches"])
              && forall dependency :: dependency in ["wine", "fex"] ==>
                   var dir := place.repository + ["patches", dependency];
                   && D.IsDir(d, dir)
                   && forall name :: HoldsPatch(d, dir, name) ==> d[dir + [name]].File?
  {
    FilesMean(d, place, "wine");
    FilesMean(d, place, "fex");
    assert "wine" in ["wine", "fex"] && "fex" in ["wine", "fex"];
  }

  lemma FilesMean(d: D.Tree, place: Place, dependency: string)
    ensures var dir := place.repository + ["patches", dependency];
            PatchesAreFiles(d, place, dependency) <==>
              forall name :: HoldsPatch(d, dir, name) ==> d[dir + [name]].File?
  {
    var dir := place.repository + ["patches", dependency];
    if PatchesAreFiles(d, place, dependency) {
      forall name | HoldsPatch(d, dir, name) ensures d[dir + [name]].File? {
        PatchesMean(d, dir, dir + [name]);
      }
    }
    if forall name :: HoldsPatch(d, dir, name) ==> d[dir + [name]].File? {
      forall p | p in PatchesIn(d, dir) ensures d[p].File? {
        PatchesMean(d, dir, p);
      }
    }
  }

  // ---- Tests ----

  /** A test with an existing log inside the runtime. */
  ghost predicate Logged(d: D.Tree, place: Place, name: string, status: string, log: string, file: D.Node) {
    && name != "" && status in ["PASS", "FAIL", "BLOCKED", "UNVERIFIED"]
    && Accepts(log, false)
    && LeadsInside(d, place.runtime + Split(log, '/'), place.runtime, file)
  }

  ghost function ReportJson(name: string, status: string, log: string): Json {
    Obj(map["name" := Str(name), "status" := Str(status), "log" := Str(log)])
  }

  ghost function TestJson(name: string, status: string, log: string, digest: string): Json {
    Obj(map["name" := Str(name), "status" := Str(status), "log" := Str(log), "sha256" := Str(digest)])
  }

  ghost predicate Reported(d: D.Tree, place: Place, j: Json, name: string, status: string, log: string, file: D.Node) {
    Logged(d, place, name, status, log, file) && j == ReportJson(name, status, log)
  }

  lemma AcceptedIsReported(d: D.Tree, place: Place, j: Json)
    requires ReportEntryOk(d, place, j)
    ensures exists name, status, log, file :: Reported(d, place, j, name, status, log, file)
  {
    var name, status, log := j.fields["name"].s, j.fields["status"].s, j.fields["log"].s;
    var file := LogFile(d, place, log).value;
    InsideMeans(d, LogPath(place, log), place.runtime, file);
    assert j.fields == ReportJson(name, status, log).fields;
    assert Reported(d, place, j, name, status, log, file);
  }

  lemma ReportedIsAccepted(d: D.Tree, place: Place, j: Json, name: string, status: string, log: string, file: D.Node)
    requires Reported(d, place, j, name, status, log, file)
    ensures ReportEntryOk(d, place, j)
  {
    InsideMeans(d, LogPath(place, log), place.runtime, file);
  }

  lemma ReportEntryMeans(d: D.Tree, place: Place, j: Json)
    ensures ReportEntryOk(d, place, j) <==>
              exists name, status, log, file :: Reported(d, place, j, name, status, log, file)
  {
    if ReportEntryOk(d, place, j) {
      AcceptedIsReported(d, place, j);
    }
    if name, status, log, file :| Reported(d, place, j, name, status, log, file) {
      ReportedIsAccepted(d, place, j, name, status, log, file);
    }
  }

  /** A test entry with the digest that its log has now. */
  ghost predicate Tested(env: Env, d: D.Tree, place: Place, j: Json, name: string, status: string, log: string,
                         file: D.Node) {
    && Logged(d, place, name, status, log, file) && file.File?
    && j == TestJson(name, status, log, env.sha(file.data))
  }

  lemma AcceptedIsTested(env: Env, d: D.Tree, place: Place, j: Json)
    requires TestEntryOk(env, d, place, j)
    ensures exists name, status, log, file :: Tested(env, d, place, j, name, status, log, file)
  {
    var name, status, log := j.fields["name"].s, j.fields["status"].s, j.fields["log"].s;
    var file := LogFile(d, place, log).value;
    InsideMeans(d, LogPath(place, log), place.runtime, file);
    assert j.fields == TestJson(name, status, log, env.sha(file.data)).fields;
    assert Tested(env, d, place, j, name, status, log, file);
  }

  lemma TestedIsAccepted(env: Env, d: D.Tree, place: Place, j: Json, name: string, status: string, log: string,
                         file: D.Node)
    requires env.Lawful() && Tested(env, d, place, j, name, status, log, file)
    ensures TestEntryOk(env, d, place, j)
  {
    InsideMeans(d, LogPath(place, log), place.runtime, file);
    assert IsDigest(env.sha(file.data));
  }

  lemma TestEntryMeans(env: Env, d: D.Tree, place: Place, j: Json)
    requires env.Lawful()
    ensures TestEntryOk(env, d, place, j) <==>
              exists name, status, log, file :: Tested(env, d, place, j, name, status, log, file)
  {
    if TestEntryOk(env, d, place, j) {
      AcceptedIsTested(env, d, place, j);
    }
    if name, status, log, file :| Tested(env, d, place, j, name, status, log, file) {
      TestedIsAccepted(env, d, place, j, name, status, log, file);
    }
  }

  /** A report entry is carried over with the digest of its log, and otherwise as it is. */
  lemma DigestAdded(env: Env, d: D.Tree, place: Place, name: string, status: string, log: string, file: D.Node)
    requires Logged(d, place, name, status, log, file) && ReportEntryOk(d, place, ReportJson(name, status, log))
    ensures WithDigest(env, d, place, ReportJson(name, status, log)) == TestJson(name, status, log, env.sha(file.data))
  {
    InsideMeans(d, LogPath(place, log), place.runtime, file);
    assert WithDigest(env, d, place, ReportJson(name, status, log)).fields
        == TestJson(name, status, log, env.sha(file.data)).fields;
  }

  /** No two tests of an accepted report have the same name. */
  lemma ReportNamesDiffer(d: D.Tree, place: Place, items: seq<Json>)
    ensures ReportOk(d, place, Arr(items)) <==>
              && (forall i :: 0 <= i < |items| ==> ReportEntryOk(d, place, items[i]))
              && (forall i, j :: 0 <= i < j < |items| && ReportEntryOk(d, place, items[i])
                                 && ReportEntryOk(d, place, items[j])
                    ==> items[i].fields["name"] != items[j].fields["name"])
  {
  }

  /** Nor have two tests of an accepted list. */
  lemma TestNamesDiffer(env: Env, d: D.Tree, place: Place, items: seq<Json>)
    ensures TestsOk(env, d, place, Arr(items)) <==>
              && (forall i :: 0 <= i < |items| ==> TestEntryOk(env, d, place, items[i]))
              && (forall i, j :: 0 <= i < j < |items| && TestEntryOk(env, d, place, items[i])
                                 && TestEntryOk(env, d, place, items[j])
                    ==> items[i].fields["name"] != items[j].fields["name"])
  {
  }

  // ---- The manifest ----

  /** An artifact object reads exactly as the record whose fields it spells out, and only if they are consistent. */
  lemma ArtifactReads(j: Json, a: Artifact)
    ensures ReadArtifact(j) == Some(a) <==>
              && j == Obj(map["path" := Str(a.path), "sha256" := Str(a.sha256), "role" := Str(a.role),
                              "kind" := Str(a.kind),
                              "link_target" := if a.linkTarget.Some? then Str(a.linkTarget.value) else Null])
              && Accepts(a.path, true) && IsDigest(a.sha256) && a.role == Role(a.path)
              && (if a.linkTarget.None? then a.kind == "file"
                  else a.kind == "symlink" && a.linkTarget.value != "" && !("/" <= a.linkTarget.value))
  {
    if FieldsOk(a) {
      ReadBack(a);
    }
  }

  /** The nine fields of a manifest, and what the lock and the tree say for each. */
  ghost predicate Spelled(m: Json, lock: Lock, patches: Json, artifacts: seq<Artifact>, tests: Json) {
    && m.Obj?
    && m.fields.Keys == {"schema_version", "stage", "platform", "source_lock", "toolchain", "dependencies", "patches",
                         "artifacts", "tests"}
    && m.fields["schema_version"] == Num(1) && m.fields["stage"] == Str("G1")
    && m.fields["platform"] == Obj(map["os" := Str("linux"), "architecture" := Str("aarch64")])
    && m.fields["source_lock"] == lock.sourceLock && m.fields["toolchain"] == lock.toolchain
    && m.fields["dependencies"] == lock.dependencies && m.fields["patches"] == patches
    && m.fields["artifacts"] == Arr(AllToJson(artifacts)) && m.fields["tests"] == tests
  }

  lemma BuiltIsSpelled(m: Json, lock: Lock, patches: Json, artifacts: seq<Artifact>, tests: seq<Json>)
    ensures m == BuildManifest(lock, patches, artifacts, tests) <==> Spelled(m, lock, patches, artifacts, Arr(tests))
  {
    TopLevelMeans(m, lock, patches, artifacts, tests);
  }

  /** What verification asks of the stored object, the stored checksums, the patches and the collection. */
  ghost predicate Checked(env: Env, d: D.Tree, place: Place, lock: Lock, stored: Option<Json>, sums: Option<string>,
                          patches: Option<Json>, artifacts: seq<Artifact>) {
    && Collectable(d, place) && patches.Some? && RequiredOk(d, place, artifacts)
    && sums.Some? && ListsArtifacts(sums.value, artifacts)
    && stored.Some?
    && exists tests :: Spelled(stored.value, lock, patches.value, artifacts, Arr(tests))
                       && TestsOk(env, d, place, Arr(tests))
  }

  /**
   A runtime verifies exactly if its tree can be collected, has its patches applied and its required files, and the two
   files beside the root hold the checksums of the collection and a manifest with the right nine fields.
   */
  lemma VerifiedMeans(env: Env, d: D.Tree, place: Place, lock: Lock)
    ensures var stored := ReadJson(env, d, place.runtime + ["runtime-manifest.json"]);
            var sums := ReadText(env, d, place.runtime + ["runtime-manifest.sha256"]);
            Verifies(env, d, place, lock)
            <==> Checked(env, d, place, lock, stored, sums, AppliedPatches(env, d, place), Collection(env, d, place))
  {
    if AppliedPatches(env, d, place).Some? {
      StoredIsSpelled(env, d, place, lock, ReadJson(env, d, place.ManifestPath()),
                      AppliedPatches(env, d, place).value, Collection(env, d, place));
    }
  }

  lemma StoredIsSpelled(env: Env, d: D.Tree, place: Place, lock: Lock, stored: Option<Json>, patches: Json,
                        artifacts: seq<Artifact>)
    ensures (exists tests :: TestsOk(env, d, place, Arr(tests))
                             && stored == Some(BuildManifest(lock, patches, artifacts, tests)))
            <==> stored.Some? && exists tests :: Spelled(stored.value, lock, patches, artifacts, Arr(tests))
                                                 && TestsOk(env, d, place, Arr(tests))
  {
    if stored.Some? {
      forall tests ensures stored == Some(BuildManifest(lock, patches, artifacts, tests))
                           <==> Spelled(stored.value, lock, patches, artifacts, Arr(tests))
      {
        BuiltIsSpelled(stored.value, lock, patches, artifacts, tests);
      }
    }
  }
}
