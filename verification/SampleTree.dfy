/**
 A small runtime for which a manifest is generated and verifies, and which a file with a line break in its name spoils:
 what is proved of generation and verification is about something.
 */
module SampleTree {
  import opened Checksums
  import opened Manifest
  import opened ManifestBreaks
  import opened ManifestChange
  import opened ManifestCommands
  import opened ManifestProof
  import opened Options
  import opened SafePath
  import opened Text
  import D = Disk
  import Samples

  const PLACE: Place := Place(["rt"], ["src"])

  const WINE_NAMES: seq<string> := ["root", "bin", "wine"]
  const EC_NAMES: seq<string> := ["root", "libarm64ecfex.dll"]
  const WOW_NAMES: seq<string> := ["root", "libwow64fex.dll"]

  predicate IsFolder(p: D.Path) {
    || p == [] || p == ["rt"] || p == ["rt", "root"] || p == ["rt", "root", "bin"]
    || p == ["src"] || p == ["src", "patches"] || p == ["src", "patches", "wine"] || p == ["src", "patches", "fex"]
  }

  function Folders(): (s: set<D.Path>)
    ensures forall p :: p in s <==> IsFolder(p)
  {
    {[], ["rt"], ["rt", "root"], ["rt", "root", "bin"],
     ["src"], ["src", "patches"], ["src", "patches", "wine"], ["src", "patches", "fex"]}
  }

  function FileAt(names: seq<string>): D.Path {
    ["rt"] + names
  }

  function Nodes(): (s: set<D.Path>)
    ensures forall p :: p in s <==> IsFolder(p) || p in {FileAt(WINE_NAMES), FileAt(EC_NAMES), FileAt(WOW_NAMES)}
  {
    Folders() + {FileAt(WINE_NAMES), FileAt(EC_NAMES), FileAt(WOW_NAMES)}
  }

  /** The three required files in their places, and no patches. */
  function Tree(): (d: D.Tree)
    ensures d.Keys == Nodes()
  {
    map p | p in Nodes() ::
      if p == FileAt(WINE_NAMES) then D.File(Samples.ElfSample(), true)
      else if p == FileAt(EC_NAMES) then D.File(Samples.EcSample(), false)
      else if p == FileAt(WOW_NAMES) then D.File(Samples.PeSample(), false)
      else D.Dir
  }

  lemma FilesAreFiles()
    ensures var d := Tree();
            && FileAt(WINE_NAMES) in d && d[FileAt(WINE_NAMES)] == D.File(Samples.ElfSample(), true)
            && FileAt(EC_NAMES) in d && d[FileAt(EC_NAMES)] == D.File(Samples.EcSample(), false)
            && FileAt(WOW_NAMES) in d && d[FileAt(WOW_NAMES)] == D.File(Samples.PeSample(), false)
  {
    assert FileAt(WINE_NAMES)[2] == "bin" && FileAt(EC_NAMES)[2] == "libarm64ecfex.dll";
    assert FileAt(WOW_NAMES)[2] == "libwow64fex.dll";
    assert "libarm64ecfex.dll"[3] != "libwow64fex.dll"[3];
  }

  lemma FoldersAreDirs(p: D.Path)
    requires IsFolder(p)
    ensures D.IsDir(Tree(), p)
  {
    assert FileAt(WINE_NAMES)[3] == "wine" && FileAt(EC_NAMES)[2] == "libarm64ecfex.dll";
    assert FileAt(WOW_NAMES)[2] == "libwow64fex.dll";
  }

  predicate IsRequired(names: seq<string>) {
    names == WINE_NAMES || names == EC_NAMES || names == WOW_NAMES
  }

  lemma RequiredNamesArePlain(names: seq<string>)
    requires IsRequired(names)
    ensures AllPlain(names) && |names| >= 2 && names[0] == "root"
    ensures forall i :: 0 <= i < |names| ==> '\\' !in names[i] && NoBreaks(names[i])
  {
  }

  /** Under a folder or a required file there is always a folder. */
  lemma ParentIsFolder(p: D.Path)
    requires p in Nodes() && p != []
    ensures Plain(p[|p| - 1]) && IsFolder(p[..|p| - 1])
  {
    if p == FileAt(WINE_NAMES) {
      assert p[..3] == ["rt", "root", "bin"];
    } else if p == FileAt(EC_NAMES) || p == FileAt(WOW_NAMES) {
      assert p[..2] == ["rt", "root"];
    }
  }

  lemma TreeIsWellFormed()
    ensures D.WellFormed(Tree())
  {
    var d := Tree();
    FoldersAreDirs([]);
    forall p | p in d ensures D.Placed(d, p) {
      if p != [] {
        ParentIsFolder(p);
        FoldersAreDirs(p[..|p| - 1]);
      }
    }
  }

  lemma LeavesAreRequired(p: D.Path)
    requires p in Leaves(Tree(), PLACE.Root())
    ensures p in {FileAt(WINE_NAMES), FileAt(EC_NAMES), FileAt(WOW_NAMES)}
  {
    if IsFolder(p) {
      FoldersAreDirs(p);
    }
  }

  lemma FileIsBelow(names: seq<string>)
    requires |names| >= 2 && names[0] == "root"
    ensures PLACE.Root() < FileAt(names) && FileAt(names)[|PLACE.runtime|..] == names
  {
    var p := FileAt(names);
    assert PLACE.Root() == ["rt", "root"] && p[0] == "rt" && p[1] == "root" && |p| >= 3;
    assert PLACE.Root() == p[..2];
    assert p[1..] == names;
  }

  lemma RequiredAreLeaves(names: seq<string>)
    requires IsRequired(names)
    ensures FileAt(names) in Leaves(Tree(), PLACE.Root()) && Tree()[FileAt(names)].File?
    ensures Relative(PLACE, FileAt(names)) == Join(names, '/')
  {
    FilesAreFiles();
    RequiredNamesArePlain(names);
    FileIsBelow(names);
  }

  // ---- Text facts on joined names ----

  lemma {:induction false} JoinedKeeps(names: seq<string>, bad: char)
    requires bad != '/' && forall i :: 0 <= i < |names| ==> bad !in names[i]
    ensures bad !in Join(names, '/')
  {
    if |names| > 1 {
      JoinedKeeps(names[1..], bad);
    }
  }

  lemma {:induction false} JoinedHasNoBreaks(names: seq<string>)
    requires forall i :: 0 <= i < |names| ==> NoBreaks(names[i])
    ensures NoBreaks(Join(names, '/'))
  {
    if |names| > 1 {
      JoinedHasNoBreaks(names[1..]);
    }
  }

  lemma FinalNameOfJoined(names: seq<string>)
    requires AllPlain(names) && names != []
    ensures FinalName(Join(names, '/')) == names[|names| - 1]
  {
    JoinedSplits(names);
    PlainIsKept(names);
    KeepAll(names);
    ParsedNames(Join(names, '/'), names);
    FinalNameOfParsed(Join(names, '/'), names);
  }

  lemma JoinedSplits(names: seq<string>)
    requires AllPlain(names) && names != []
    ensures Split(Join(names, '/'), '/') == names
  {
    PlainIsKept(names);
    SplitJoin(names, '/');
  }

  lemma ParsedNames(value: string, names: seq<string>)
    requires KeepNames(Split(value, '/')) == names
    ensures SafePath.Parse(value).names == names
  {
  }

  lemma FinalNameOfParsed(value: string, names: seq<string>)
    requires SafePath.Parse(value).names == names && names != []
    ensures FinalName(value) == names[|names| - 1]
  {
  }

  lemma PlainIsKept(names: seq<string>)
    requires AllPlain(names)
    ensures forall i :: 0 <= i < |names| ==> Kept(names[i]) && Free(names[i], '/')
  {
  }

  lemma RequiredPathsAreSafe(names: seq<string>)
    requires IsRequired(names)
    ensures Accepts(Join(names, '/'), true) && NoBreaks(Join(names, '/'))
    ensures Split(Join(names, '/'), '/') == names && FinalName(Join(names, '/')) == names[|names| - 1]
  {
    RequiredNamesArePlain(names);
    JoinedKeeps(names, '\\');
    JoinedHasNoBreaks(names);
    JoinedIsAccepted(names);
    FinalNameOfJoined(names);
  }

  lemma TreeIsCollectable()
    ensures Collectable(Tree(), PLACE)
    ensures forall p :: p in Leaves(Tree(), PLACE.Root()) ==> NoBreaks(Relative(PLACE, p))
  {
    FoldersAreDirs(["rt", "root"]);
    assert PLACE.Root() == ["rt", "root"];
    forall p | p in Leaves(Tree(), PLACE.Root())
      ensures LeafAcceptable(Tree(), PLACE, p) && NoBreaks(Relative(PLACE, p)) {
      LeavesAreRequired(p);
      var names := if p == FileAt(WINE_NAMES) then WINE_NAMES
                   else if p == FileAt(EC_NAMES) then EC_NAMES else WOW_NAMES;
      RequiredAreLeaves(names);
      RequiredPathsAreSafe(names);
    }
  }

  // ---- The required roles ----

  function RoleOf(names: seq<string>): string
    requires IsRequired(names)
  {
    if names == WINE_NAMES then WINE else if names == EC_NAMES then FEX_ARM64EC else FEX_WOW64
  }

  lemma LoaderPath()
    ensures Join(WINE_NAMES, '/') == "root/bin/wine"
  {
    assert WINE_NAMES[1..] == ["bin", "wine"] && ["bin", "wine"][1..] == ["wine"];
  }

  lemma NotTheLoaderPath(names: seq<string>)
    requires names in {EC_NAMES, WOW_NAMES}
    ensures Join(names, '/') != "root/bin/wine"
  {
    LoaderPath();
    RequiredPathsAreSafe(names);
    RequiredPathsAreSafe(WINE_NAMES);
  }

  lemma NamesDiffer()
    ensures "libarm64ecfex.dll" != "libwow64fex.dll"
  {
    assert "libarm64ecfex.dll"[3] != "libwow64fex.dll"[3];
  }

  lemma RequiredRoles(names: seq<string>)
    requires IsRequired(names)
    ensures Role(Join(names, '/')) == RoleOf(names)
  {
    RequiredPathsAreSafe(names);
    NamesDiffer();
    if names == WINE_NAMES {
      LoaderPath();
    } else {
      NotTheLoaderPath(names);
    }
  }

  lemma RequiredHolders(names: seq<string>)
    requires IsRequired(names)
    ensures SoleHolder(Tree(), PLACE, RoleOf(names), FileAt(names))
  {
    RequiredAreLeaves(names);
    RequiredRoles(names);
    forall q | q in Leaves(Tree(), PLACE.Root()) && Role(Relative(PLACE, q)) == RoleOf(names)
      ensures q == FileAt(names)
    {
      LeavesAreRequired(q);
      var others := if q == FileAt(WINE_NAMES) then WINE_NAMES
                    else if q == FileAt(EC_NAMES) then EC_NAMES else WOW_NAMES;
      RequiredAreLeaves(others);
      RequiredRoles(others);
    }
  }

  lemma RequiredResolves(names: seq<string>)
    requires IsRequired(names)
    ensures InsideFile(Tree(), FileAt(names), PLACE.Root()) == Some(Tree()[FileAt(names)])
  {
    var d := Tree();
    RequiredAreLeaves(names);
    TreeIsWellFormed();
    OutputPaths();
    FoldersAreDirs(["rt", "root"]);
    D.EntryResolvesToItself(d, FileAt(names));
    D.EntryResolvesToItself(d, PLACE.Root());
  }

  lemma RequiredFile(env: Env, names: seq<string>)
    requires IsRequired(names)
    ensures RoleFile(Tree(), PLACE, Collection(env, Tree(), PLACE), RoleOf(names)) == Some(Tree()[FileAt(names)])
  {
    RequiredHolders(names);
    HolderIsMatched(env, Tree(), PLACE, RoleOf(names), FileAt(names));
    RequiredAreLeaves(names);
    RequiredPathsAreSafe(names);
    RequiredResolves(names);
  }

  lemma TreeHasRequired(env: Env)
    ensures RequiredOk(Tree(), PLACE, Collection(env, Tree(), PLACE))
  {
    FilesAreFiles();
    NamesDiffer();
    RequiredFile(env, WINE_NAMES);
    RequiredFile(env, EC_NAMES);
    RequiredFile(env, WOW_NAMES);
    Samples.ElfSampleIsAccepted();
    Samples.EcSampleIsAccepted();
    Samples.PeSampleIsAccepted();
  }

  // ---- No patches ----

  lemma NothingBelowSources(p: D.Path, dependency: string)
    requires p in Nodes() && |p| > 3
    ensures !(["src", "patches", dependency] < p)
  {
    assert FileAt(WINE_NAMES)[0] == "rt" && |FileAt(EC_NAMES)| == |FileAt(WOW_NAMES)| == 3;
    assert "rt" != "src";
  }

  lemma NothingInPatchDirs(dependency: string)
    requires dependency in {"wine", "fex"}
    ensures PatchesIn(Tree(), PLACE.PatchDir(dependency)) == {}
    ensures D.IsDir(Tree(), PLACE.PatchDir(dependency))
  {
    var dir := ["src", "patches", dependency];
    assert PLACE.PatchDir(dependency) == dir;
    FoldersAreDirs(dir);
    forall p | p in Nodes() && |p| == 4 ensures !(dir < p) {
      NothingBelowSources(p, dependency);
    }
  }

  lemma NoEntries(env: Env, dependency: string)
    requires dependency in {"wine", "fex"}
    ensures PatchesAreFiles(Tree(), PLACE, dependency) && EntriesIn(env, Tree(), PLACE, dependency) == []
  {
    NothingInPatchDirs(dependency);
    D.ListingIsUnique({}, []);
  }

  lemma OutputPaths()
    ensures PLACE.Root() == ["rt", "root"] && PLACE.StatePath() == ["rt", "applied-patches.json"]
    ensures PLACE.ManifestPath() == ["rt", "runtime-manifest.json"]
    ensures PLACE.ChecksumPath() == ["rt", "runtime-manifest.sha256"]
  {
  }

  predicate IsOutput(name: string) {
    name == "applied-patches.json" || name == "runtime-manifest.json" || name == "runtime-manifest.sha256"
  }

  lemma OutputIsNoFolder(name: string)
    requires name != "root"
    ensures !IsFolder(["rt", name])
  {
    assert ["rt", name][0] == "rt" && ["rt", name][1] == name;
    assert "rt"[0] != "src"[0];
  }

  lemma OutputNameIsPlain(name: string)
    requires IsOutput(name)
    ensures Plain(name) && name != "root"
  {
  }

  lemma OutputIsMissing(name: string)
    requires IsOutput(name)
    ensures ["rt", name] !in Tree() && Plain(name)
  {
    OutputNameIsPlain(name);
    OutputIsNoFolder(name);
    assert |FileAt(WINE_NAMES)| == 4 && |FileAt(EC_NAMES)| == 3 && |FileAt(WOW_NAMES)| == 3;
  }

  lemma NoState()
    ensures D.Opened(Tree(), PLACE.StatePath()) == None
  {
    OutputPaths();
    OutputIsMissing("applied-patches.json");
    TreeIsWellFormed();
    FoldersAreDirs(["rt"]);
    assert ["rt"] + ["applied-patches.json"] == ["rt", "applied-patches.json"];
    D.MissingDoesNotResolve(Tree(), ["rt"], "applied-patches.json");
  }

  lemma TreeHasNoPatches(env: Env)
    ensures AppliedPatches(env, Tree(), PLACE) == Some(Arr([]))
  {
    NoEntries(env, "wine");
    NoEntries(env, "fex");
    NothingInPatchDirs("wine");
    NothingInPatchDirs("fex");
    FoldersAreDirs(["src", "patches"]);
    assert PLACE.repository + ["patches"] == ["src", "patches"];
    NoState();
  }

  // ---- The two outputs ----

  /** A name missing from a real directory is where a file of that name is created. */
  lemma MissingIsCreated(name: string)
    requires Plain(name) && ["rt", name] !in Tree()
    ensures D.Landing(Tree(), ["rt", name]) == Some(["rt", name])
  {
    var d, w := Tree(), ["rt", name];
    var d' := d[w := D.File([], false)];
    TreeIsWellFormed();
    FoldersAreDirs(["rt"]);
    assert w == ["rt"] + [name] && w[|w| - 1] == name && w[..|w| - 1] == ["rt"];
    FileKeepsWellFormed(d, d', w);
    D.EntryResolvesToItself(d', w);
    D.MissingDoesNotResolve(d, ["rt"], name);
    if D.Landing(d, w) != Some(w) {
      D.OthersStillLead(d, d', w, [], w, D.LINK_LIMIT);
    }
  }

  lemma OutputIsCreated(name: string)
    requires IsOutput(name)
    ensures D.Landing(Tree(), ["rt", name]) == Some(["rt", name])
  {
    OutputIsMissing(name);
    MissingIsCreated(name);
  }

  lemma OutputIsApart(name: string)
    requires IsOutput(name) && name != "applied-patches.json"
    ensures Apart(Tree(), PLACE, [], ["rt", name])
  {
    OutputPaths();
    OutputIsCreated("applied-patches.json");
    var w := ["rt", name];
    assert w[1] == name && PLACE.Root()[1] == "root" && PLACE.StatePath()[1] == "applied-patches.json";
    assert |PLACE.PatchDir("wine")| == 3 && |PLACE.PatchDir("fex")| == 3;
  }

  lemma TreeIsUndisturbed()
    ensures Undisturbed(Tree(), PLACE, [])
  {
    OutputPaths();
    OutputIsCreated("runtime-manifest.json");
    OutputIsCreated("runtime-manifest.sha256");
    OutputIsApart("runtime-manifest.json");
    OutputIsApart("runtime-manifest.sha256");
    assert PLACE.ManifestPath()[1] != PLACE.ChecksumPath()[1];
  }

  lemma OutputsAreWritable()
    ensures Writable(Tree(), PLACE.ManifestPath()) && Writable(Tree(), PLACE.ChecksumPath())
  {
    OutputPaths();
    OutputIsCreated("runtime-manifest.json");
    OutputIsCreated("runtime-manifest.sha256");
    OutputIsMissing("runtime-manifest.json");
    OutputIsMissing("runtime-manifest.sha256");
  }

  lemma TreeGenerates(env: Env, lock: Lock)
    ensures Generated(env, Tree(), PLACE, lock, []).ok
  {
    TreeIsCollectable();
    TreeHasRequired(env);
    TreeHasNoPatches(env);
    OutputsAreWritable();
    BothWritable(env, Tree(), PLACE, ManifestOf(env, Tree(), PLACE, lock, []), Collection(env, Tree(), PLACE));
  }

  lemma NoTests(env: Env, d: D.Tree)
    ensures ReportOk(d, PLACE, Arr([])) && WithDigests(env, d, PLACE, []) == []
  {
  }

  /** For this tree a manifest is generated, and it verifies. */
  lemma TreeVerifies(env: Env, lock: Lock)
    requires env.Lawful()
    ensures Generated(env, Tree(), PLACE, lock, []).ok
    ensures Verifies(env, Generated(env, Tree(), PLACE, lock, []).tree, PLACE, lock)
  {
    NoTests(env, Tree());
    TreeIsWellFormed();
    TreeIsUndisturbed();
    TreeGenerates(env, lock);
    TreeIsCollectable();
    GenerateThenVerify(env, Tree(), PLACE, lock, []);
  }

  function SpoiledTree(): D.Tree {
    Tree()[NewPath(PLACE, "a\nb") := D.File([], false)]
  }

  /** With a file called "a\nb" added, a manifest is generated and does not verify. */
  lemma SpoiledTreeFails(env: Env, lock: Lock)
    requires env.Lawful()
    ensures Generated(env, SpoiledTree(), PLACE, lock, []).ok
    ensures !Verifies(env, Generated(env, SpoiledTree(), PLACE, lock, []).tree, PLACE, lock)
  {
    NoTests(env, Tree());
    NoTests(env, SpoiledTree());
    TreeIsWellFormed();
    TreeIsUndisturbed();
    TreeGenerates(env, lock);
    BreakingNamesExist(PLACE);
    NewIsNew("a\nb");
    OutputPaths();
    OutputIsCreated("applied-patches.json");
    BreakingNameFails(env, Tree(), PLACE, lock, [], "a\nb", []);
  }

  lemma SampleNamesHaveNoBreaks()
    ensures NoBreaks("bin") && NoBreaks("libarm64ecfex.dll") && NoBreaks("libwow64fex.dll")
  {
  }

  lemma NewIsNew(name: string)
    requires !NoBreaks(name)
    ensures NewPath(PLACE, name) !in Tree() && NewPath(PLACE, name) != PLACE.StatePath()
  {
    SampleNamesHaveNoBreaks();
    NotAmongTheNodes(NewPath(PLACE, name));
  }

  lemma NotAFolder(p: D.Path)
    requires |p| == 3 && p[0] == "rt" && p[2] != "bin"
    ensures !IsFolder(p)
  {
    assert "rt"[0] != "src"[0];
  }

  lemma NotAmongTheNodes(p: D.Path)
    requires |p| == 3 && p[0] == "rt" && p[2] != "bin" && p[2] != "libarm64ecfex.dll" && p[2] != "libwow64fex.dll"
    ensures p !in Tree() && p != PLACE.StatePath()
  {
    NotAFolder(p);
    assert FileAt(EC_NAMES)[2] == "libarm64ecfex.dll" && FileAt(WOW_NAMES)[2] == "libwow64fex.dll";
    assert |FileAt(WINE_NAMES)| == 4 && |PLACE.StatePath()| == 2;
  }
}
