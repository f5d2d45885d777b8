/**
 The failing side of generating and verifying: one file with a line break in its name is enough to make a tree
 generate a manifest that does not verify.
 */
module ManifestBreaks {
  import opened Bytes
  import opened Checksums
  import opened Manifest
  import opened ManifestChange
  import opened ManifestCommands
  import opened ManifestProof
  import opened Options
  import opened SafePath
  import opened Text
  import D = Disk

  function NewPath(place: Place, name: string): D.Path {
    place.Root() + [name]
  }

  /** `d'` is `d` with one new file directly under the runtime's root, whose name holds a line break. */
  ghost predicate Added(d: D.Tree, d': D.Tree, place: Place, name: string) {
    && D.WellFormed(d) && D.IsDir(d, place.Root()) && NewPath(place, name) !in d
    && D.Rewritten(d, d', NewPath(place, name))
    && Plain(name) && '\\' !in name && !NoBreaks(name)
  }

  // ---- The new file is an artifact like any other ----

  lemma NewRelative(place: Place, name: string)
    ensures Relative(place, NewPath(place, name)) == "root/" + name
  {
    assert NewPath(place, name)[|place.runtime|..] == ["root", name];
    assert Join(["root", name], '/') == "root" + ['/'] + Join([name], '/');
  }

  lemma NewIsAccepted(place: Place, name: string)
    requires Plain(name) && '\\' !in name
    ensures Accepts(Relative(place, NewPath(place, name)), true)
  {
    NewRelative(place, name);
    assert NewPath(place, name)[|place.runtime|..] == ["root", name];
    JoinedIsAccepted(["root", name]);
  }

  lemma FinalNameUnderRoot(name: string)
    requires Plain(name)
    ensures FinalName("root/" + name) == name
  {
    SplitFirst("root", name, '/');
    SplitPiece(name, '/');
    assert "root" + ['/'] + name == "root/" + name;
    KeepAll(["root", name]);
  }

  lemma NotTheLoader(name: string)
    requires Plain(name)
    ensures "root/" + name != "root/bin/wine"
  {
    assert ("root/" + name)[5..] == name;
    assert "root/bin/wine"[8] == '/';
    assert |name| > 3 ==> ("root/" + name)[8] == name[3] != '/';
  }

  lemma NamedFilesHaveNoBreaks()
    ensures NoBreaks("libarm64ecfex.dll") && NoBreaks("libwow64fex.dll")
  {
  }

  /** A name with a line break is none of the names that give a role. */
  lemma NewHasNoRole(place: Place, name: string)
    requires Plain(name) && !NoBreaks(name)
    ensures Role(Relative(place, NewPath(place, name))) == "runtime-file"
  {
    NewRelative(place, name);
    FinalNameUnderRoot(name);
    NotTheLoader(name);
    NamedFilesHaveNoBreaks();
  }

  lemma NewPathBreaks(place: Place, name: string)
    requires !NoBreaks(name)
    ensures !NoBreaks(Relative(place, NewPath(place, name)))
  {
    NewRelative(place, name);
    var i :| 0 <= i < |name| && IsBreak(name[i]);
    assert ("root/" + name)[5 + i] == name[i];
  }

  // ---- Everything else stays ----

  lemma LeavesAfter(d: D.Tree, d': D.Tree, place: Place, name: string)
    requires Added(d, d', place, name)
    ensures Leaves(d', place.Root()) == Leaves(d, place.Root()) + {NewPath(place, name)}
  {
    forall p | place.Root() < p && p != NewPath(place, name)
      ensures p in Leaves(d', place.Root()) <==> p in Leaves(d, place.Root())
    {
      EntrySurvives(d, d', NewPath(place, name), p);
    }
  }

  lemma StillCollectable(d: D.Tree, d': D.Tree, place: Place, name: string)
    requires Added(d, d', place, name) && Collectable(d, place)
    ensures Collectable(d', place)
  {
    LeavesAfter(d, d', place, name);
    NewIsAccepted(place, name);
    forall p | p in Leaves(d', place.Root()) ensures LeafAcceptable(d', place, p) {
      if p != NewPath(place, name) {
        LeafSurvives(d, d', place, NewPath(place, name), p);
      }
    }
  }

  lemma {:induction false} WithRoleNone(artifacts: seq<Artifact>, role: string)
    requires forall j :: 0 <= j < |artifacts| ==> artifacts[j].role != role
    ensures WithRole(artifacts, role) == []
  {
    if artifacts != [] {
      WithRoleNone(artifacts[1..], role);
    }
  }

  lemma {:induction false} WithRoleSingle(artifacts: seq<Artifact>, role: string, i: nat)
    requires i < |artifacts| && artifacts[i].role == role
    requires forall j :: 0 <= j < |artifacts| && artifacts[j].role == role ==> j == i
    ensures WithRole(artifacts, role) == [artifacts[i]]
  {
    var rest := artifacts[1..];
    assert forall j :: 0 <= j < |rest| ==> rest[j] == artifacts[j + 1];
    if i > 0 {
      WithRoleSingle(rest, role, i - 1);
    } else {
      WithRoleNone(rest, role);
    }
  }

  /** The one holder of a role is what the required file is taken from. */
  lemma HolderIsMatched(env: Env, d: D.Tree, place: Place, role: string, p: D.Path)
    requires SoleHolder(d, place, role, p)
    ensures WithRole(Collection(env, d, place), role) == [ArtifactOf(env, d, place, p)]
  {
    var i := LeavesListed(env, d, place, p);
    var artifacts, paths := Collection(env, d, place), D.Listing(Leaves(d, place.Root()));
    D.ListingIsSorted(Leaves(d, place.Root()));
    forall j | 0 <= j < |artifacts| && artifacts[j].role == role ensures j == i {
      assert paths[j] in paths;
      assert artifacts[j] == ArtifactOf(env, d, place, paths[j]);
      assert paths[j] == p == paths[i];
    }
    WithRoleSingle(artifacts, role, i);
  }

  lemma StillSoleHolder(d: D.Tree, d': D.Tree, place: Place, name: string, role: string, p: D.Path)
    requires Added(d, d', place, name) && SoleHolder(d, place, role, p) && role != "runtime-file"
    ensures SoleHolder(d', place, role, p) && d'[p] == d[p]
  {
    LeavesAfter(d, d', place, name);
    NewHasNoRole(place, name);
  }

  lemma RoleFileStays(env: Env, d: D.Tree, d': D.Tree, place: Place, name: string, role: string)
    requires Added(d, d', place, name) && role != "runtime-file"
    requires RoleFile(d, place, Collection(env, d, place), role).Some?
    ensures RoleFile(d', place, Collection(env, d', place), role) == RoleFile(d, place, Collection(env, d, place), role)
  {
    MatchedRoleIsUnique(env, d, place, role);
    var p :| SoleHolder(d, place, role, p);
    StillSoleHolder(d, d', place, name, role, p);
    HolderIsMatched(env, d, place, role, p);
    HolderIsMatched(env, d', place, role, p);
    InsideFileSurvives(d, d', NewPath(place, name), place.runtime + Split(Relative(place, p), '/'), place.Root());
  }

  lemma RoleFilesStay(env: Env, d: D.Tree, d': D.Tree, place: Place, name: string)
    requires Added(d, d', place, name)
    requires RoleFile(d, place, Collection(env, d, place), WINE).Some?
    requires RoleFile(d, place, Collection(env, d, place), FEX_ARM64EC).Some?
    requires RoleFile(d, place, Collection(env, d, place), FEX_WOW64).Some?
    ensures forall role :: role in {WINE, FEX_ARM64EC, FEX_WOW64} ==>
              RoleFile(d', place, Collection(env, d', place), role)
              == RoleFile(d, place, Collection(env, d, place), role)
  {
    RoleFileStays(env, d, d', place, name, WINE);
    RoleFileStays(env, d, d', place, name, FEX_ARM64EC);
    RoleFileStays(env, d, d', place, name, FEX_WOW64);
  }

  /** The runtime's root is no patch directory. */
  lemma NewIsNoPatch(place: Place, name: string, dependency: string)
    requires dependency in {"wine", "fex"}
    ensures !PatchPlace(place.PatchDir(dependency), NewPath(place, name))
  {
    var dir, p := place.PatchDir(dependency), NewPath(place, name);
    assert dir[|dir| - 1] == dependency && p[|p| - 2] == "root";
  }

  lemma StillApplied(env: Env, d: D.Tree, d': D.Tree, place: Place, name: string)
    requires Added(d, d', place, name) && AppliedPatches(env, d, place).Some?
    requires D.Landing(d, place.StatePath()) != Some(NewPath(place, name))
    ensures AppliedPatches(env, d', place).Some?
  {
    NewIsNoPatch(place, name, "wine");
    NewIsNoPatch(place, name, "fex");
    PatchEntriesSurvive(env, d, d', place, NewPath(place, name));
    StateSurvives(d, d', place, NewPath(place, name));
  }

  lemma StillGenerable(env: Env, d: D.Tree, d': D.Tree, place: Place, name: string)
    requires Added(d, d', place, name) && Generable(env, d, place)
    requires D.Landing(d, place.StatePath()) != Some(NewPath(place, name))
    ensures Generable(env, d', place)
  {
    StillCollectable(d, d', place, name);
    RoleFilesStay(env, d, d', place, name);
    StillApplied(env, d, d', place, name);
  }

  /** A log that is there is not the new file. */
  lemma LogsAvoidNew(d: D.Tree, place: Place, items: seq<Json>, w: D.Path)
    requires w !in d
    ensures LogsAvoid(d, place, items, w)
  {
  }

  // ---- Both outputs can still be written ----

  predicate Writable(d: D.Tree, p: D.Path) {
    var w := D.Landing(d, p);
    w.Some? && (w.value in d ==> d[w.value].File?)
  }

  lemma WritableMeans(env: Env, d: D.Tree, p: D.Path, text: string)
    ensures WriteText(env, d, p, text).Some? <==> Writable(d, p)
  {
  }

  lemma StillWritable(d: D.Tree, d': D.Tree, w: D.Path, p: D.Path)
    requires D.Rewritten(d, d', w)
    ensures Writable(d', p) <==> Writable(d, p)
  {
    D.LandSurvives(d, d', w, [], p, D.LINK_LIMIT);
  }

  /** Both writes succeed exactly when each of the two paths can be written to begin with. */
  lemma BothWritable(env: Env, d: D.Tree, place: Place, manifest: Json, artifacts: seq<Artifact>)
    ensures WriteBoth(env, d, place, manifest, artifacts).ok
            <==> Writable(d, place.ManifestPath()) && Writable(d, place.ChecksumPath())
  {
    var text := env.dump(manifest);
    WritableMeans(env, d, place.ManifestPath(), text);
    var first := WriteText(env, d, place.ManifestPath(), text);
    if first.Some? {
      WriteRewrites(env, d, first.value, place.ManifestPath(), text);
      StillWritable(d, first.value, D.Landing(d, place.ManifestPath()).value, place.ChecksumPath());
      WritableMeans(env, first.value, place.ChecksumPath(), Print(EntriesOf(artifacts)));
    }
  }

  /** The tree with this text in the file the path leads to; a file that was there keeps its permission. */
  ghost predicate Holding(env: Env, d: D.Tree, d': D.Tree, p: D.Path, text: string) {
    && Writable(d, p)
    && var w := D.Landing(d, p).value;
    && d' == d[w := D.File(env.encode(text), w in d && d[w].runnable)]
  }

  /** What is on disk after the two writes: both texts, the manifest only, or nothing new. */
  lemma OutputsWritten(env: Env, d: D.Tree, place: Place, manifest: Json, artifacts: seq<Artifact>)
    ensures var g := WriteBoth(env, d, place, manifest, artifacts);
            var first := place.runtime + ["runtime-manifest.json"];
            var second := place.runtime + ["runtime-manifest.sha256"];
            && (g.ok <==> Writable(d, first) && Writable(d, second))
            && (!Writable(d, first) ==> g.tree == d)
            && (Writable(d, first) && !Writable(d, second) ==> Holding(env, d, g.tree, first, env.dump(manifest)))
            && (g.ok ==> exists d1 :: Holding(env, d, d1, first, env.dump(manifest))
                                      && Holding(env, d1, g.tree, second, Print(EntriesOf(artifacts))))
  {
    BothWritable(env, d, place, manifest, artifacts);
    if Writable(d, place.ManifestPath()) {
      var text, w := env.dump(manifest), D.Landing(d, place.ManifestPath()).value;
      var d1 := WriteText(env, d, place.ManifestPath(), text).value;
      assert Holding(env, d, d1, place.ManifestPath(), text);
      WriteRewrites(env, d, d1, place.ManifestPath(), text);
      StillWritable(d, d1, w, place.ChecksumPath());
    }
  }

  lemma StillGenerated(env: Env, d: D.Tree, d': D.Tree, place: Place, lock: Lock,
                       name: string, tests: seq<Json>, tests': seq<Json>)
    requires Added(d, d', place, name) && Generated(env, d, place, lock, tests).ok
    requires D.Landing(d, place.StatePath()) != Some(NewPath(place, name))
    ensures Generated(env, d', place, lock, tests').ok
  {
    StillGenerable(env, d, d', place, name);
    BothWritable(env, d, place, ManifestOf(env, d, place, lock, tests), Collection(env, d, place));
    BothWritable(env, d', place, ManifestOf(env, d', place, lock, tests'), Collection(env, d', place));
    StillWritable(d, d', NewPath(place, name), place.ManifestPath());
    StillWritable(d, d', NewPath(place, name), place.ChecksumPath());
  }

  /** The report is as good as before, and generating would disturb nothing. */
  lemma StillUndisturbed(env: Env, d: D.Tree, d': D.Tree, place: Place, items: seq<Json>, name: string)
    requires ReportOk(d, place, Arr(items)) && Undisturbed(d, place, items) && Added(d, d', place, name)
    ensures ReportOk(d', place, Arr(items)) && Undisturbed(d', place, items)
  {
    var w := NewPath(place, name);
    LogsAvoidNew(d, place, items, w);
    ReportOkSurvives(env, d, d', place, w, items);
    UndisturbedSurvives(env, d, d', place, w, items);
  }

  lemma AdditionIsAdded(d: D.Tree, place: Place, name: string, data: seq<Byte>)
    requires D.WellFormed(d) && D.IsDir(d, place.Root()) && NewPath(place, name) !in d
    requires Plain(name) && '\\' !in name && !NoBreaks(name)
    ensures var d' := d[NewPath(place, name) := D.File(data, false)]; Added(d, d', place, name) && D.WellFormed(d')
  {
    var w := NewPath(place, name);
    assert w[|w| - 1] == name && w[..|w| - 1] == place.Root();
    FileKeepsWellFormed(d, d[w := D.File(data, false)], w);
  }

  lemma NewLeafBreaks(d: D.Tree, d': D.Tree, place: Place, name: string)
    requires Added(d, d', place, name)
    ensures exists p :: p in Leaves(d', place.Root()) && !NoBreaks(Relative(place, p))
  {
    LeavesAfter(d, d', place, name);
    NewPathBreaks(place, name);
    assert NewPath(place, name) in Leaves(d', place.Root());
  }

  /**
   From any tree for which a manifest can be generated undisturbed, adding one file under the root whose name holds a
   line break gives a tree for which a manifest is still generated, and that manifest does not verify.
   */
  lemma BreakingNameFails(env: Env, d: D.Tree, place: Place, lock: Lock, items: seq<Json>,
                          name: string, data: seq<Byte>)
    requires env.Lawful() && D.WellFormed(d) && ReportOk(d, place, Arr(items)) && Undisturbed(d, place, items)
    requires Generated(env, d, place, lock, WithDigests(env, d, place, items)).ok
    requires Plain(name) && '\\' !in name && !NoBreaks(name) && NewPath(place, name) !in d
    requires D.Landing(d, place.StatePath()) != Some(NewPath(place, name))
    ensures var d' := d[NewPath(place, name) := D.File(data, false)];
            && D.WellFormed(d') && ReportOk(d', place, Arr(items)) && Undisturbed(d', place, items)
            && var after := Generated(env, d', place, lock, WithDigests(env, d', place, items));
            after.ok && !Verifies(env, after.tree, place, lock)
  {
    var d' := d[NewPath(place, name) := D.File(data, false)];
    AdditionIsAdded(d, place, name, data);
    StillUndisturbed(env, d, d', place, items, name);
    StillGenerated(env, d, d', place, lock, name, WithDigests(env, d, place, items),
                   WithDigests(env, d', place, items));
    GenerateThenVerify(env, d', place, lock, items);
    NewLeafBreaks(d, d', place, name);
  }

  /** Such names exist: this one is accepted wherever an artifact path is. */
  lemma BreakingNamesExist(place: Place)
    ensures Plain("a\nb") && '\\' !in "a\nb" && !NoBreaks("a\nb")
    ensures Accepts(Relative(place, NewPath(place, "a\nb")), true)
  {
    assert IsBreak("a\nb"[1]);
    NewIsAccepted(place, "a\nb");
  }
}
