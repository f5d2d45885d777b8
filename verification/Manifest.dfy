/**
 Generating and verifying a runtime manifest (scripts/generate-runtime-manifest.py:161-355, 555-745).
 SHA-256, UTF-8 and JSON are parameters; the parsed dependency lock is three opaque JSON values.
 */
module Manifest {
  import opened Bytes
  import opened Checksums
  import opened Options
  import opened SafePath
  import opened Sorting
  import opened Text
  import D = Disk
  import Elf
  import Pe

  /** JSON values up to Python's `==`: a number also stands for the Boolean or float equal to it. */
  datatype Json = Null | Num(n: int) | Str(s: string) | Arr(items: seq<Json>) | Obj(fields: map<string, Json>)

  datatype Env = Env(
    sha: seq<Byte> -> string,
    encode: string -> seq<Byte>,
    decode: seq<Byte> -> Option<string>,
    dump: Json -> string,
    load: string -> Option<Json>)
  {
    ghost predicate Lawful() {
      && (forall b :: IsDigest(sha(b)))
      && (forall s :: decode(encode(s)) == Some(s))
      && (forall j :: load(dump(j)) == Some(j))
    }
  }

  datatype Lock = Lock(sourceLock: Json, toolchain: Json, dependencies: Json)

  /** The two directories a command works on, already resolved. */
  datatype Place = Place(runtime: D.Path, repository: D.Path) {
    function Root(): D.Path { runtime + ["root"] }
    function ManifestPath(): D.Path { runtime + ["runtime-manifest.json"] }
    function ChecksumPath(): D.Path { runtime + ["runtime-manifest.sha256"] }
    function StatePath(): D.Path { runtime + ["applied-patches.json"] }
    function PatchDir(dependency: string): D.Path { repository + ["patches", dependency] }
  }

  // ---- Artifacts ----

  datatype Artifact = Artifact(path: string, sha256: string, role: string, kind: string, linkTarget: Option<string>)

  function FinalName(relative: string): string {
    var names := SafePath.Parse(relative).names;
    if names == [] then "" else names[|names| - 1]
  }

  /** `artifact_role`. */
  function Role(relative: string): string {
    if relative == "root/bin/wine" then "wine-loader"
    else if FinalName(relative) == "libarm64ecfex.dll" then "fex-arm64ec-module"
    else if FinalName(relative) == "libwow64fex.dll" then "fex-wow64-module"
    else "runtime-file"
  }

  predicate IsLeaf(d: D.Tree, p: D.Path) {
    p in d && (d[p].File? || d[p].Link?)
  }

  /** Everything `rglob` visits below the runtime's root; links are not entered. */
  ghost function Below(d: D.Tree, root: D.Path): set<D.Path> {
    set p | p in d && root < p
  }

  ghost function Leaves(d: D.Tree, root: D.Path): set<D.Path> {
    set p | p in d && root < p && IsLeaf(d, p)
  }

  function Relative(place: Place, p: D.Path): string
    requires |place.runtime| <= |p|
  {
    Join(p[|place.runtime|..], '/')
  }

  function ArtifactOf(env: Env, d: D.Tree, place: Place, p: D.Path): Artifact
    requires IsLeaf(d, p) && |place.runtime| <= |p|
  {
    var relative := Relative(place, p);
    match d[p]
    case File(data, _) => Artifact(relative, env.sha(data), Role(relative), "file", None)
    case Link(target) => Artifact(relative, env.sha(env.encode(target)), Role(relative), "symlink", Some(target))
  }

  /** A safe path; a link is relative, resolves, and does not lead out of the root. */
  predicate LeafAcceptable(d: D.Tree, place: Place, p: D.Path)
    requires IsLeaf(d, p) && |place.runtime| <= |p|
  {
    && Accepts(Relative(place, p), true)
    && (d[p].Link? ==>
          && !IsAbsolute(d[p].target)
          && var q := D.Resolve(d, p); q.Some? && place.Root() <= q.value)
  }

  ghost predicate Collectable(d: D.Tree, place: Place) {
    && D.IsDir(d, place.Root())
    && forall p :: p in Leaves(d, place.Root()) ==> LeafAcceptable(d, place, p)
  }

  /** No leaf has an unsafe path, and no link is absolute, dangling, or leads out of the root. */
  lemma CollectableMeans(d: D.Tree, place: Place)
    ensures Collectable(d, place) <==>
              var root := place.runtime + ["root"];
              && D.IsDir(d, root)
              && forall p :: p in d && root < p && (d[p].File? || d[p].Link?) ==>
                   && Accepts(Join(p[|place.runtime|..], '/'), true)
                   && (d[p].Link? ==>
                         && !("/" <= d[p].target)
                         && D.Resolve(d, p).Some? && root <= D.Resolve(d, p).value)
  {
    if Collectable(d, place) {
      forall p | p in d && place.Root() < p && (d[p].File? || d[p].Link?) ensures LeafAcceptable(d, place, p) {
        assert p in Leaves(d, place.Root());
      }
    }
  }

  ghost function ArtifactsOf(env: Env, d: D.Tree, place: Place, paths: seq<D.Path>): (artifacts: seq<Artifact>)
    requires forall p :: p in paths ==> IsLeaf(d, p) && |place.runtime| <= |p|
    ensures |artifacts| == |paths|
    ensures forall i :: 0 <= i < |paths| ==> artifacts[i] == ArtifactOf(env, d, place, paths[i])
  {
    seq(|paths|, i requires 0 <= i < |paths| => assert paths[i] in paths; ArtifactOf(env, d, place, paths[i]))
  }

  /** The one artifact list of a tree: its files and links, in path order. */
  ghost function Collection(env: Env, d: D.Tree, place: Place): seq<Artifact> {
    D.ListingIsSorted(Leaves(d, place.Root()));
    ArtifactsOf(env, d, place, D.Listing(Leaves(d, place.Root())))
  }

  /** The leaves among sorted paths, with their artifacts; stops at the first unacceptable one. */
  method CollectSorted(env: Env, d: D.Tree, place: Place, sorted: seq<D.Path>)
    returns (r: Option<seq<Artifact>>, ghost kept: seq<D.Path>)
    requires D.StrictlySorted(sorted) && forall i :: 0 <= i < |sorted| ==> place.Root() < sorted[i]
    ensures r.Some? ==>
              && D.StrictlySorted(kept)
              && (forall p :: p in kept <==> p in sorted && IsLeaf(d, p))
              && (forall p :: p in kept ==> place.Root() < p && LeafAcceptable(d, place, p))
              && r.value == ArtifactsOf(env, d, place, kept)
    ensures r.None? ==> exists i :: 0 <= i < |sorted| && place.Root() < sorted[i]
                                     && IsLeaf(d, sorted[i]) && !LeafAcceptable(d, place, sorted[i])
  {
    var artifacts: seq<Artifact> := [];
    kept := [];
    for k := 0 to |sorted|
      invariant D.StrictlySorted(kept)
      invariant forall p :: p in kept <==> p in sorted[..k] && IsLeaf(d, p)
      invariant forall p :: p in kept ==> place.Root() < p && LeafAcceptable(d, place, p)
      invariant artifacts == ArtifactsOf(env, d, place, kept)
    {
      assert sorted[..k + 1] == sorted[..k] + [sorted[k]];
      if IsLeaf(d, sorted[k]) {
        if !LeafAcceptable(d, place, sorted[k]) {
          return None, kept;
        }
        KeptStaysSorted(kept, sorted, k);
        artifacts := artifacts + [ArtifactOf(env, d, place, sorted[k])];
        kept := kept + [sorted[k]];
      }
    }
    assert sorted[..|sorted|] == sorted;
    return Some(artifacts), kept;
  }

  lemma KeptStaysSorted(kept: seq<D.Path>, sorted: seq<D.Path>, k: int)
    requires D.StrictlySorted(kept) && D.StrictlySorted(sorted) && 0 <= k < |sorted|
    requires forall p :: p in kept ==> p in sorted[..k]
    ensures D.StrictlySorted(kept + [sorted[k]])
  {
    forall i | 0 <= i < |kept| ensures PathLeq(kept[i], sorted[k]) && kept[i] != sorted[k] {
      assert kept[i] in sorted[..k];
    }
  }

  /** `collect_artifacts`: the result depends on the tree only, whatever order the file system lists it in. */
  method CollectArtifacts(env: Env, d: D.Tree, place: Place, listing: seq<D.Path>) returns (r: Option<seq<Artifact>>)
    requires D.Enumerates(Below(d, place.Root()), listing)
    ensures r.Some? <==> Collectable(d, place)
    ensures r.Some? ==> r.value == Collection(env, d, place)
    ensures r.Some? <==>
              var root := place.runtime + ["root"];
              && D.IsDir(d, root)
              && forall p :: p in d && root < p && (d[p].File? || d[p].Link?) ==>
                   && Accepts(Join(p[|place.runtime|..], '/'), true)
                   && (d[p].Link? ==>
                         && !("/" <= d[p].target)
                         && D.Resolve(d, p).Some? && root <= D.Resolve(d, p).value)
  {
    CollectableMeans(d, place);
    var root := place.Root();
    if !D.IsDir(d, root) {
      return None;
    }
    D.SortedListingOf(Below(d, root), listing);
    var sorted := Sort(listing, PathLeq);
    forall i | 0 <= i < |sorted| ensures sorted[i] in Below(d, root) {
      assert sorted[i] in sorted;
    }
    ghost var kept: seq<D.Path>;
    r, kept := CollectSorted(env, d, place, sorted);
    if r.Some? {
      forall p ensures p in kept <==> p in Leaves(d, root) {
        assert p in Below(d, root) <==> p in sorted;
      }
      D.ListingIsUnique(Leaves(d, root), kept);
    } else {
      ghost var i :| 0 <= i < |sorted| && root < sorted[i]
                     && IsLeaf(d, sorted[i]) && !LeafAcceptable(d, place, sorted[i]);
      assert sorted[i] in Leaves(d, root);
    }
  }

  // ---- Required artifacts ----

  const WINE := "wine-loader"
  const FEX_ARM64EC := "fex-arm64ec-module"
  const FEX_WOW64 := "fex-wow64-module"

  function WithRole(artifacts: seq<Artifact>, role: string): seq<Artifact> {
    if artifacts == [] then []
    else (if artifacts[0].role == role then [artifacts[0]] else []) + WithRole(artifacts[1..], role)
  }

  /** `resolve_file_inside`: the regular file a path leads to, provided it lies under `root`. */
  function InsideFile(d: D.Tree, path: D.Path, root: D.Path): (r: Option<D.Node>)
    ensures r.Some? ==> r.value.File?
  {
    var top, target := D.Resolve(d, root), D.Resolve(d, path);
    if top.Some? && target.Some? && top.value <= target.value then D.Opened(d, path) else None
  }

  function RoleFile(d: D.Tree, place: Place, artifacts: seq<Artifact>, role: string): (r: Option<D.Node>)
    ensures r.Some? ==> r.value.File?
  {
    var matches := WithRole(artifacts, role);
    if |matches| == 1 then InsideFile(d, place.runtime + Split(matches[0].path, '/'), place.Root()) else None
  }

  ghost predicate RequiredOk(d: D.Tree, place: Place, artifacts: seq<Artifact>) {
    var wine, arm64ec, wow64 := RoleFile(d, place, artifacts, WINE),
                                RoleFile(d, place, artifacts, FEX_ARM64EC),
                                RoleFile(d, place, artifacts, FEX_WOW64);
    && wine.Some? && arm64ec.Some? && wow64.Some?
    && wine.value.runnable && Elf.WellFormed(wine.value.data)
    && Pe.WellFormed(arm64ec.value.data, 0xA641)
    && Pe.WellFormed(wow64.value.data, 0xAA64)
  }

  /** `validate_required_artifacts`. */
  method ValidateRequired(d: D.Tree, place: Place, artifacts: seq<Artifact>) returns (ok: bool)
    ensures ok == RequiredOk(d, place, artifacts)
  {
    var wine := RoleFile(d, place, artifacts, WINE);
    var arm64ec := RoleFile(d, place, artifacts, FEX_ARM64EC);
    var wow64 := RoleFile(d, place, artifacts, FEX_WOW64);
    if wine.None? || arm64ec.None? || wow64.None? || !wine.value.runnable {
      return false;
    }
    var elf := Elf.Validate(wine.value.data);
    if elf.Rejected? {
      return false;
    }
    var first := Pe.Validate(arm64ec.value.data, 0xA641);
    if first.Rejected? {
      return false;
    }
    var second := Pe.Validate(wow64.value.data, 0xAA64);
    return second.Ok?;
  }

  // ---- Patches ----

  predicate IsPatchName(name: string) {
    |name| >= 6 && name[|name| - 6..] == ".patch"
  }

  ghost function PatchesIn(d: D.Tree, dir: D.Path): set<D.Path> {
    set p | p in d && |p| == |dir| + 1 && dir < p && IsPatchName(p[|p| - 1])
  }

  function PatchEntry(env: Env, d: D.Tree, place: Place, dependency: string, p: D.Path): Json
    requires p in d && d[p].File? && |place.repository| <= |p|
  {
    Obj(map["dependency" := Str(dependency), "path" := Str(Join(p[|place.repository|..], '/')),
            "sha256" := Str(env.sha(d[p].data))])
  }

  ghost predicate PatchesReadable(d: D.Tree, place: Place) {
    && D.IsDir(d, place.repository + ["patches"])
    && D.IsDir(d, place.PatchDir("wine")) && D.IsDir(d, place.PatchDir("fex"))
    && PatchesAreFiles(d, place, "wine") && PatchesAreFiles(d, place, "fex")
  }

  ghost function EntriesFor(env: Env, d: D.Tree, place: Place, dependency: string, paths: seq<D.Path>): (e: seq<Json>)
    requires forall p :: p in paths ==> p in d && d[p].File? && |place.repository| <= |p|
    ensures |e| == |paths|
    ensures forall i :: 0 <= i < |paths| ==> e[i] == PatchEntry(env, d, place, dependency, paths[i])
  {
    seq(|paths|, i requires 0 <= i < |paths| =>
        assert paths[i] in paths; PatchEntry(env, d, place, dependency, paths[i]))
  }

  ghost predicate PatchesAreFiles(d: D.Tree, place: Place, dependency: string) {
    forall p :: p in PatchesIn(d, place.PatchDir(dependency)) ==> d[p].File?
  }

  /** The entries of one dependency's patches, in path order. */
  ghost function EntriesIn(env: Env, d: D.Tree, place: Place, dependency: string): seq<Json>
    requires PatchesAreFiles(d, place, dependency)
  {
    D.ListingIsSorted(PatchesIn(d, place.PatchDir(dependency)));
    EntriesFor(env, d, place, dependency, D.Listing(PatchesIn(d, place.PatchDir(dependency))))
  }

  /** `patch_entries`, when nothing in the patch directories is refused. */
  ghost function PatchEntries(env: Env, d: D.Tree, place: Place): seq<Json>
    requires PatchesReadable(d, place)
  {
    EntriesIn(env, d, place, "wine") + EntriesIn(env, d, place, "fex")
  }

  function ReadText(env: Env, d: D.Tree, p: D.Path): Option<string> {
    var node := D.Opened(d, p);
    if node.Some? then env.decode(node.value.data) else None
  }

  function ReadJson(env: Env, d: D.Tree, p: D.Path): Option<Json> {
    var text := ReadText(env, d, p);
    if text.Some? then env.load(text.value) else None
  }

  /** `applied_patch_entries` on the expected entries. */
  function AppliedOf(env: Env, d: D.Tree, place: Place, expected: seq<Json>): Option<Json> {
    var state := place.StatePath();
    if D.Opened(d, state).None? then
      if expected == [] then Some(Arr([])) else None
    else if D.IsLink(d, state) then None
    else if ReadJson(env, d, state) == Some(Arr(expected)) then Some(Arr(expected))
    else None
  }

  ghost function AppliedPatches(env: Env, d: D.Tree, place: Place): Option<Json> {
    if PatchesReadable(d, place) then AppliedOf(env, d, place, PatchEntries(env, d, place)) else None
  }

  /** A patch of the directory: any entry whose name ends in ".patch". */
  ghost predicate HoldsPatch(d: D.Tree, dir: D.Path, name: string) {
    dir + [name] in d && exists stem :: name == stem + ".patch"
  }

  lemma PatchesMean(d: D.Tree, dir: D.Path, p: D.Path)
    ensures p in PatchesIn(d, dir) <==> exists name :: p == dir + [name] && HoldsPatch(d, dir, name)
  {
    if p in PatchesIn(d, dir) {
      var name := p[|p| - 1];
      assert p == dir + [name] && name == name[..|name| - 6] + ".patch";
    }
    if name :| p == dir + [name] && HoldsPatch(d, dir, name) {
      var stem :| name == stem + ".patch";
      assert name[|name| - 6..] == ".patch" && dir < p;
    }
  }

  ghost predicate Ascending(names: seq<string>) {
    forall i, j :: 0 <= i < j < |names| ==> StringLeq(names[i], names[j]) && names[i] != names[j]
  }

  lemma {:induction false} SameDirectoryOrder(dir: D.Path, a: string, b: string)
    ensures PathLeq(dir + [a], dir + [b]) <==> StringLeq(a, b)
  {
    if dir == [] {
      OrderOfOne(a, b);
    } else {
      assert (dir + [a])[1..] == dir[1..] + [a] && (dir + [b])[1..] == dir[1..] + [b];
      SameDirectoryOrder(dir[1..], a, b);
    }
  }

  lemma OrderOfOne(a: string, b: string)
    ensures PathLeq([] + [a], [] + [b]) <==> StringLeq(a, b)
  {
    StringOrderIsTotal();
    assert StringLeq(a, a);
    var s, t := [] + [a], [] + [b];
    assert s[0] == a && t[0] == b && s[1..] == [] && t[1..] == [];
    assert LexLeq(StringLeq, s, t) == if a == b then LexLeq(StringLeq, s[1..], t[1..]) else StringLeq(a, b);
  }

  /** `paths` are these names in the directory. */
  ghost predicate NamedIn(dir: D.Path, names: seq<string>, paths: seq<D.Path>) {
    |paths| == |names| && forall i :: 0 <= i < |names| ==> paths[i] == dir + [names[i]]
  }

  lemma NamesAscend(dir: D.Path, names: seq<string>, paths: seq<D.Path>)
    requires NamedIn(dir, names, paths) && D.StrictlySorted(paths)
    ensures Ascending(names)
  {
    forall i, j | 0 <= i < j < |names| ensures StringLeq(names[i], names[j]) && names[i] != names[j] {
      SameDirectoryOrder(dir, names[i], names[j]);
    }
  }

  lemma NamesOf(d: D.Tree, dir: D.Path, paths: seq<D.Path>) returns (names: seq<string>)
    requires forall p :: p in paths ==> p in PatchesIn(d, dir)
    ensures NamedIn(dir, names, paths)
  {
    forall i | 0 <= i < |paths| ensures |paths[i]| > 0 && paths[i] == dir + [paths[i][|paths[i]| - 1]] {
      assert paths[i] in paths;
      PatchesMean(d, dir, paths[i]);
    }
    names := seq(|paths|, i requires 0 <= i < |paths| => paths[i][|paths[i]| - 1]);
  }

  lemma NameIsListed(dir: D.Path, names: seq<string>, paths: seq<D.Path>, n: string)
    requires NamedIn(dir, names, paths)
    ensures n in names <==> dir + [n] in paths
  {
    if n in names {
      var i :| 0 <= i < |names| && names[i] == n;
      assert paths[i] == dir + [n];
    }
    if dir + [n] in paths {
      var i :| 0 <= i < |paths| && paths[i] == dir + [n];
      assert dir + [names[i]] == dir + [n] && (dir + [n])[|dir|] == n && (dir + [names[i]])[|dir|] == names[i];
    }
  }

  /** The listed patches of a directory are its patches by name, in the order of the names. */
  lemma ListedByName(d: D.Tree, dir: D.Path) returns (names: seq<string>)
    ensures forall n :: n in names <==> HoldsPatch(d, dir, n)
    ensures Ascending(names)
    ensures NamedIn(dir, names, D.Listing(PatchesIn(d, dir)))
  {
    var paths := D.Listing(PatchesIn(d, dir));
    D.ListingIsSorted(PatchesIn(d, dir));
    names := NamesOf(d, dir, paths);
    NamesAscend(dir, names, paths);
    forall n ensures n in names <==> HoldsPatch(d, dir, n) {
      NameIsListed(dir, names, paths, n);
      HoldsMeans(d, dir, n);
    }
  }

  lemma HoldsMeans(d: D.Tree, dir: D.Path, name: string)
    ensures dir + [name] in PatchesIn(d, dir) <==> HoldsPatch(d, dir, name)
  {
    PatchesMean(d, dir, dir + [name]);
    if other :| dir + [name] == dir + [other] && HoldsPatch(d, dir, other) {
      assert (dir + [name])[|dir|] == name && (dir + [other])[|dir|] == other;
    }
  }

  /** Where the runtime records the applied patches: nothing, or a real file with exactly the expected entries. */
  lemma AppliedMeans(env: Env, d: D.Tree, place: Place)
    ensures var r, state := AppliedPatches(env, d, place), place.runtime + ["applied-patches.json"];
            && (r.Some? ==> PatchesReadable(d, place) && r.value == Arr(PatchEntries(env, d, place)))
            && (D.Opened(d, state).Some? && PatchesReadable(d, place) ==>
                  var expected := Arr(PatchEntries(env, d, place));
                  (r.Some? <==> !D.IsLink(d, state) && ReadJson(env, d, state) == Some(expected)))
            && (D.Opened(d, state).None? && PatchesReadable(d, place) ==>
                  (r.Some? <==> (forall name :: !HoldsPatch(d, place.PatchDir("wine"), name))
                                && (forall name :: !HoldsPatch(d, place.PatchDir("fex"), name))))
  {
    if PatchesReadable(d, place) {
      NoPatchesNoEntries(env, d, place, "wine");
      NoPatchesNoEntries(env, d, place, "fex");
    }
  }

  lemma NoPatchesNoEntries(env: Env, d: D.Tree, place: Place, dependency: string)
    requires PatchesAreFiles(d, place, dependency)
    ensures EntriesIn(env, d, place, dependency) == [] <==>
              forall name :: !HoldsPatch(d, place.PatchDir(dependency), name)
  {
    var dir := place.PatchDir(dependency);
    var paths := D.Listing(PatchesIn(d, dir));
    D.ListingIsSorted(PatchesIn(d, dir));
    if paths != [] {
      assert paths[0] in paths;
      PatchesMean(d, dir, paths[0]);
    }
    if name :| HoldsPatch(d, dir, name) {
      PatchesMean(d, dir, dir + [name]);
      assert dir + [name] in paths;
    }
  }

  /** The loop over the sorted patches. */
  method AppendEntries(env: Env, d: D.Tree, place: Place, dependency: string, sorted: seq<D.Path>)
    returns (r: Option<seq<Json>>)
    requires forall i :: 0 <= i < |sorted| ==> sorted[i] in d && |place.repository| <= |sorted[i]|
    ensures r.Some? <==> forall i :: 0 <= i < |sorted| ==> d[sorted[i]].File?
    ensures r.Some? ==>
              && |r.value| == |sorted|
              && forall i :: 0 <= i < |sorted| ==> r.value[i] == PatchEntry(env, d, place, dependency, sorted[i])
  {
    var entries: seq<Json> := [];
    for k := 0 to |sorted|
      invariant |entries| == k
      invariant forall i :: 0 <= i < k ==>
                  d[sorted[i]].File? && entries[i] == PatchEntry(env, d, place, dependency, sorted[i])
    {
      if !d[sorted[k]].File? {
        return None;
      }
      entries := entries + [PatchEntry(env, d, place, dependency, sorted[k])];
    }
    return Some(entries);
  }

  /** What the listed patches are. */
  lemma ListedPatches(d: D.Tree, place: Place, dependency: string, sorted: seq<D.Path>)
    requires sorted == D.Listing(PatchesIn(d, place.PatchDir(dependency)))
    ensures forall i :: 0 <= i < |sorted| ==> sorted[i] in d && |place.repository| <= |sorted[i]|
    ensures PatchesAreFiles(d, place, dependency) <==>
              forall i :: 0 <= i < |sorted| ==> sorted[i] in d && d[sorted[i]].File?
  {
    var found := PatchesIn(d, place.PatchDir(dependency));
    D.ListingIsSorted(found);
    forall i | 0 <= i < |sorted| ensures sorted[i] in found {
      assert sorted[i] in sorted;
    }
    forall p | p in found ensures exists i :: 0 <= i < |sorted| && sorted[i] == p {
      assert p in sorted;
    }
  }

  lemma EntriesCollected(env: Env, d: D.Tree, place: Place, dependency: string, entries: seq<Json>)
    requires PatchesAreFiles(d, place, dependency)
    requires var sorted := D.Listing(PatchesIn(d, place.PatchDir(dependency)));
             && |entries| == |sorted|
             && forall i :: 0 <= i < |sorted| ==>
                  && sorted[i] in d && d[sorted[i]].File? && |place.repository| <= |sorted[i]|
                  && entries[i] == PatchEntry(env, d, place, dependency, sorted[i])
    ensures entries == EntriesIn(env, d, place, dependency)
  {
  }

  method ListPatches(env: Env, d: D.Tree, place: Place, dependency: string, listing: seq<D.Path>)
    returns (r: Option<seq<Json>>)
    requires D.Enumerates(PatchesIn(d, place.PatchDir(dependency)), listing)
    ensures r == if PatchesAreFiles(d, place, dependency) then Some(EntriesIn(env, d, place, dependency)) else None
  {
    D.ListingIsCanonical(PatchesIn(d, place.PatchDir(dependency)), listing);
    var sorted := Sort(listing, PathLeq);
    ListedPatches(d, place, dependency, sorted);
    r := AppendEntries(env, d, place, dependency, sorted);
    if r.Some? {
      EntriesCollected(env, d, place, dependency, r.value);
    }
  }

  method AppliedPatchEntries(env: Env, d: D.Tree, place: Place, wine: seq<D.Path>, fex: seq<D.Path>)
    returns (r: Option<Json>)
    requires D.Enumerates(PatchesIn(d, place.PatchDir("wine")), wine)
    requires D.Enumerates(PatchesIn(d, place.PatchDir("fex")), fex)
    ensures r == AppliedPatches(env, d, place)
    ensures var state := place.runtime + ["applied-patches.json"];
            && (r.Some? && D.Opened(d, state).Some? ==> !D.IsLink(d, state) && ReadJson(env, d, state) == r)
            && (D.Opened(d, state).Some? && !D.IsLink(d, state) && PatchesReadable(d, place) ==>
                  var expected := Arr(PatchEntries(env, d, place));
                  ReadJson(env, d, state) == Some(expected) ==> r == Some(expected))
            && (D.Opened(d, state).None? ==>
                  if PatchesReadable(d, place)
                     && (forall name :: !HoldsPatch(d, place.PatchDir("wine"), name))
                     && (forall name :: !HoldsPatch(d, place.PatchDir("fex"), name))
                  then r == Some(Arr([])) else r == None)
  {
    AppliedMeans(env, d, place);
    if !D.IsDir(d, place.repository + ["patches"])
       || !D.IsDir(d, place.PatchDir("wine")) || !D.IsDir(d, place.PatchDir("fex")) {
      return None;
    }
    var first := ListPatches(env, d, place, "wine", wine);
    var second := ListPatches(env, d, place, "fex", fex);
    if first.None? || second.None? {
      return None;
    }
    return AppliedOf(env, d, place, first.value + second.value);
  }
}
