/** The two promises of the manifest: what was just generated verifies, and what verifies has not changed. */
module ManifestProof {
  import opened Checksums
  import opened Manifest
  import opened ManifestCommands
  import opened Options
  import opened SafePath
  import opened Text
  import D = Disk

  // ---- Writing a file that nothing else is read from ----

  predicate PatchPlace(dir: D.Path, w: D.Path) {
    |w| == |dir| + 1 && dir < w && IsPatchName(w[|w| - 1])
  }

  /** `w` is not where an artifact, a patch or the patch state is, or would be. */
  ghost predicate Unrecorded(d: D.Tree, place: Place, w: D.Path) {
    && !(place.Root() <= w)
    && !PatchPlace(place.PatchDir("wine"), w) && !PatchPlace(place.PatchDir("fex"), w)
    && D.Landing(d, place.StatePath()) != Some(w)
  }

  /** `d'` is `d` with a file written at such a place. */
  ghost predicate Beside(d: D.Tree, d': D.Tree, place: Place, w: D.Path) {
    D.WellFormed(d) && D.WellFormed(d') && D.Rewritten(d, d', w) && Unrecorded(d, place, w)
  }

  lemma EntrySurvives(d: D.Tree, d': D.Tree, w: D.Path, p: D.Path)
    requires D.Rewritten(d, d', w) && p != w
    ensures IsLeaf(d', p) <==> IsLeaf(d, p)
    ensures p in d ==> d'[p] == d[p]
  {
  }

  lemma LeavesSurvive(d: D.Tree, d': D.Tree, place: Place, w: D.Path)
    requires Beside(d, d', place, w)
    ensures Leaves(d', place.Root()) == Leaves(d, place.Root())
    ensures forall p :: p in Leaves(d, place.Root()) ==> d'[p] == d[p]
  {
    var root := place.Root();
    forall p | root < p
      ensures p in Leaves(d', root) <==> p in Leaves(d, root)
      ensures p in Leaves(d, root) ==> d'[p] == d[p]
    {
      EntrySurvives(d, d', w, p);
    }
  }

  lemma LeafSurvives(d: D.Tree, d': D.Tree, place: Place, w: D.Path, p: D.Path)
    requires D.Rewritten(d, d', w) && p != w
    requires p in Leaves(d, place.Root()) && LeafAcceptable(d, place, p)
    ensures IsLeaf(d', p) && LeafAcceptable(d', place, p)
  {
    if d[p].Link? {
      D.FollowSurvives(d, d', w, [], p, D.LINK_LIMIT);
    }
  }

  lemma CollectableSurvives(d: D.Tree, d': D.Tree, place: Place, w: D.Path)
    requires Beside(d, d', place, w) && Collectable(d, place)
    ensures Collectable(d', place)
  {
    LeavesSurvive(d, d', place, w);
    forall p | p in Leaves(d', place.Root()) ensures LeafAcceptable(d', place, p) {
      LeafSurvives(d, d', place, w, p);
    }
  }

  /** The artifact list only looks at the leaves. */
  lemma SameLeavesSameCollection(env: Env, d: D.Tree, d': D.Tree, place: Place)
    requires Leaves(d', place.Root()) == Leaves(d, place.Root())
    requires forall p :: p in Leaves(d, place.Root()) ==> d'[p] == d[p]
    ensures Collection(env, d', place) == Collection(env, d, place)
  {
    D.ListingIsSorted(Leaves(d, place.Root()));
    var paths := D.Listing(Leaves(d, place.Root()));
    var a, a' := ArtifactsOf(env, d, place, paths), ArtifactsOf(env, d', place, paths);
    forall i | 0 <= i < |paths| ensures a'[i] == a[i] {
      assert paths[i] in paths;
      assert d'[paths[i]] == d[paths[i]];
    }
  }

  lemma CollectionSurvives(env: Env, d: D.Tree, d': D.Tree, place: Place, w: D.Path)
    requires Beside(d, d', place, w) && Collectable(d, place)
    ensures Collectable(d', place) && Collection(env, d', place) == Collection(env, d, place)
  {
    LeavesSurvive(d, d', place, w);
    CollectableSurvives(d, d', place, w);
    SameLeavesSameCollection(env, d, d', place);
  }

  lemma InsideFileSurvives(d: D.Tree, d': D.Tree, w: D.Path, path: D.Path, top: D.Path)
    requires D.Rewritten(d, d', w)
    requires InsideFile(d, path, top).Some? && D.Resolve(d, path) != Some(w)
    ensures InsideFile(d', path, top) == InsideFile(d, path, top)
    ensures D.Resolve(d', path) == D.Resolve(d, path)
  {
    D.OpenedSurvives(d, d', w, path);
    D.FollowSurvives(d, d', w, [], top, D.LINK_LIMIT);
  }

  lemma RoleFileSurvives(d: D.Tree, d': D.Tree, place: Place, w: D.Path, artifacts: seq<Artifact>, role: string)
    requires D.Rewritten(d, d', w) && !(place.Root() <= w) && D.WellFormed(d) && D.IsDir(d, place.Root())
    requires RoleFile(d, place, artifacts, role).Some?
    ensures RoleFile(d', place, artifacts, role) == RoleFile(d, place, artifacts, role)
  {
    D.EntryResolvesToItself(d, place.Root());
    InsideFileSurvives(d, d', w, place.runtime + Split(WithRole(artifacts, role)[0].path, '/'), place.Root());
  }

  /** The three required files. */
  ghost predicate RoleFiles(d: D.Tree, place: Place, artifacts: seq<Artifact>, wine: D.Node, ec: D.Node, wow: D.Node) {
    && RoleFile(d, place, artifacts, WINE) == Some(wine)
    && RoleFile(d, place, artifacts, FEX_ARM64EC) == Some(ec)
    && RoleFile(d, place, artifacts, FEX_WOW64) == Some(wow)
  }

  lemma RoleFilesSurvive(d: D.Tree, d': D.Tree, place: Place, w: D.Path, artifacts: seq<Artifact>,
                         wine: D.Node, ec: D.Node, wow: D.Node)
    requires Beside(d, d', place, w) && D.IsDir(d, place.Root()) && RoleFiles(d, place, artifacts, wine, ec, wow)
    ensures RoleFiles(d', place, artifacts, wine, ec, wow)
  {
    RoleFileSurvives(d, d', place, w, artifacts, WINE);
    RoleFileSurvives(d, d', place, w, artifacts, FEX_ARM64EC);
    RoleFileSurvives(d, d', place, w, artifacts, FEX_WOW64);
  }

  lemma PatchesInSurvive(d: D.Tree, d': D.Tree, w: D.Path, dir: D.Path)
    requires D.Rewritten(d, d', w) && !PatchPlace(dir, w)
    ensures PatchesIn(d', dir) == PatchesIn(d, dir)
    ensures forall p :: p in PatchesIn(d, dir) ==> d'[p] == d[p]
  {
  }

  lemma PatchEntriesSurvive(env: Env, d: D.Tree, d': D.Tree, place: Place, w: D.Path)
    requires D.Rewritten(d, d', w)
    requires !PatchPlace(place.PatchDir("wine"), w) && !PatchPlace(place.PatchDir("fex"), w)
    requires PatchesReadable(d, place)
    ensures PatchesReadable(d', place) && PatchEntries(env, d', place) == PatchEntries(env, d, place)
  {
    PatchesInSurvive(d, d', w, place.PatchDir("wine"));
    PatchesInSurvive(d, d', w, place.PatchDir("fex"));
    EntriesInSurvive(env, d, d', place, "wine");
    EntriesInSurvive(env, d, d', place, "fex");
  }

  lemma EntriesInSurvive(env: Env, d: D.Tree, d': D.Tree, place: Place, dependency: string)
    requires PatchesAreFiles(d, place, dependency)
    requires PatchesIn(d', place.PatchDir(dependency)) == PatchesIn(d, place.PatchDir(dependency))
    requires forall p :: p in PatchesIn(d, place.PatchDir(dependency)) ==> d'[p] == d[p]
    ensures PatchesAreFiles(d', place, dependency)
    ensures EntriesIn(env, d', place, dependency) == EntriesIn(env, d, place, dependency)
  {
    var found := PatchesIn(d, place.PatchDir(dependency));
    D.ListingIsSorted(found);
    var paths := D.Listing(found);
    forall i | 0 <= i < |paths|
      ensures paths[i] in found
      ensures PatchEntry(env, d', place, dependency, paths[i]) == PatchEntry(env, d, place, dependency, paths[i])
    {
      assert paths[i] in paths;
    }
  }

  /** The patch state is read the same before and after. */
  lemma StateSurvives(d: D.Tree, d': D.Tree, place: Place, w: D.Path)
    requires D.Rewritten(d, d', w) && D.Landing(d, place.StatePath()) != Some(w)
    ensures D.Opened(d', place.StatePath()) == D.Opened(d, place.StatePath())
    ensures D.Opened(d, place.StatePath()).Some? ==> D.IsLink(d', place.StatePath()) == D.IsLink(d, place.StatePath())
  {
    D.OthersStillLead(d, d', w, [], place.StatePath(), D.LINK_LIMIT);
  }

  lemma AppliedSurvives(env: Env, d: D.Tree, d': D.Tree, place: Place, w: D.Path)
    requires Beside(d, d', place, w) && AppliedPatches(env, d, place).Some?
    ensures AppliedPatches(env, d', place) == AppliedPatches(env, d, place)
  {
    PatchEntriesSurvive(env, d, d', place, w);
    StateSurvives(d, d', place, w);
  }

  // ---- The tests of the report ----

  /** No log of the report is read at `w`. */
  ghost predicate LogsAvoid(d: D.Tree, place: Place, items: seq<Json>, w: D.Path) {
    forall i :: 0 <= i < |items| && ReportEntryOk(d, place, items[i]) ==>
      D.Resolve(d, LogPath(place, items[i].fields["log"].s)) != Some(w)
  }

  lemma ReportSurvives(env: Env, d: D.Tree, d': D.Tree, place: Place, w: D.Path, j: Json)
    requires D.Rewritten(d, d', w) && ReportEntryOk(d, place, j)
    requires D.Resolve(d, LogPath(place, j.fields["log"].s)) != Some(w)
    ensures ReportEntryOk(d', place, j) && WithDigest(env, d', place, j) == WithDigest(env, d, place, j)
    ensures D.Resolve(d', LogPath(place, j.fields["log"].s)) == D.Resolve(d, LogPath(place, j.fields["log"].s))
  {
    InsideFileSurvives(d, d', w, LogPath(place, j.fields["log"].s), place.runtime);
  }

  lemma DigestedEntryOk(env: Env, d: D.Tree, place: Place, j: Json)
    requires env.Lawful() && ReportEntryOk(d, place, j)
    ensures TestEntryOk(env, d, place, WithDigest(env, d, place, j))
    ensures NameOf(WithDigest(env, d, place, j)) == NameOf(j)
  {
    var t := WithDigest(env, d, place, j);
    assert t.fields.Keys == REPORT_KEYS + {"sha256"} == TEST_KEYS;
    assert forall k :: k in REPORT_KEYS ==> t.fields[k] == j.fields[k];
  }

  lemma DigestedReportOk(env: Env, d: D.Tree, place: Place, items: seq<Json>)
    requires env.Lawful() && ReportOk(d, place, Arr(items))
    ensures TestsOk(env, d, place, Arr(WithDigests(env, d, place, items)))
  {
    var tests := WithDigests(env, d, place, items);
    forall i | 0 <= i < |items|
      ensures TestEntryOk(env, d, place, tests[i]) && NameOf(tests[i]) == NameOf(items[i])
    {
      DigestedEntryOk(env, d, place, items[i]);
    }
  }

  lemma ReportOkSurvives(env: Env, d: D.Tree, d': D.Tree, place: Place, w: D.Path, items: seq<Json>)
    requires D.Rewritten(d, d', w) && ReportOk(d, place, Arr(items)) && LogsAvoid(d, place, items, w)
    ensures ReportOk(d', place, Arr(items))
  {
    forall i | 0 <= i < |items| ensures ReportEntryOk(d', place, items[i]) {
      ReportSurvives(env, d, d', place, w, items[i]);
    }
  }

  lemma DigestsSurvive(env: Env, d: D.Tree, d': D.Tree, place: Place, w: D.Path, items: seq<Json>)
    requires D.Rewritten(d, d', w) && ReportOk(d, place, Arr(items)) && ReportOk(d', place, Arr(items))
    requires LogsAvoid(d, place, items, w)
    ensures WithDigests(env, d', place, items) == WithDigests(env, d, place, items)
  {
    var before, after := WithDigests(env, d, place, items), WithDigests(env, d', place, items);
    forall i | 0 <= i < |items| ensures after[i] == before[i] {
      ReportSurvives(env, d, d', place, w, items[i]);
    }
  }

  lemma LogsStillAvoid(env: Env, d: D.Tree, d': D.Tree, place: Place, w: D.Path, items: seq<Json>, v: D.Path)
    requires D.Rewritten(d, d', w) && ReportOk(d, place, Arr(items))
    requires LogsAvoid(d, place, items, w) && LogsAvoid(d, place, items, v)
    ensures LogsAvoid(d', place, items, v)
  {
    forall i | 0 <= i < |items| && ReportEntryOk(d', place, items[i])
      ensures D.Resolve(d', LogPath(place, items[i].fields["log"].s)) != Some(v)
    {
      ReportSurvives(env, d, d', place, w, items[i]);
    }
  }

  // ---- The checksum file ----

  lemma ListedPathsAreListed(text: string, es: seq<Entry>, entries: seq<Entry>, i: nat)
    requires Listing(text, es) && i < |entries| && entries[i].path in ToMap(es)
    ensures NoBreaks(entries[i].path)
  {
    KeysArePaths(es, entries[i].path);
    var k :| 0 <= k < |es| && es[k].path == entries[i].path;
    ListedPathsHaveNoBreaks(text, es, k);
  }

  /** The printed list parses back to the artifacts exactly when no path holds a line break. */
  lemma ChecksumsRoundTrip(artifacts: seq<Artifact>)
    requires artifacts != [] && DistinctArtifacts(artifacts)
    requires forall i :: 0 <= i < |artifacts| ==> FieldsOk(artifacts[i])
    ensures ListsArtifacts(Print(EntriesOf(artifacts)), artifacts)
            <==> (forall i :: 0 <= i < |artifacts| ==> NoBreaks(artifacts[i].path))
  {
    var entries := EntriesOf(artifacts);
    var text := Print(entries);
    if forall i :: 0 <= i < |artifacts| ==> NoBreaks(artifacts[i].path) {
      ParsesWhatItPrints(entries);
    }
    if es: seq<Entry> :| Listing(text, es) && ToMap(es) == ToMap(entries) {
      forall i | 0 <= i < |artifacts| ensures NoBreaks(artifacts[i].path) {
        KeysArePaths(entries, entries[i].path);
        ListedPathsAreListed(text, es, entries, i);
      }
    }
  }

  lemma RequiredNeedsArtifacts(d: D.Tree, place: Place, artifacts: seq<Artifact>)
    requires RoleFile(d, place, artifacts, WINE).Some?
    ensures artifacts != []
  {
  }

  // ---- Generate, then verify ----

  /** `w` is where nothing that verification asks about is read. */
  ghost predicate Apart(d: D.Tree, place: Place, items: seq<Json>, w: D.Path) {
    Unrecorded(d, place, w) && LogsAvoid(d, place, items, w)
  }

  /** The two outputs are different files, links followed, and neither holds anything the manifest records. */
  ghost predicate Undisturbed(d: D.Tree, place: Place, items: seq<Json>) {
    var first, second := D.Landing(d, place.ManifestPath()), D.Landing(d, place.ChecksumPath());
    && first != second
    && (first.Some? ==> Apart(d, place, items, first.value))
    && (second.Some? ==> Apart(d, place, items, second.value))
  }

  /** What the manifest records of a tree, and the three required files. */
  datatype Recorded = Recorded(artifacts: seq<Artifact>, patches: Json, wine: D.Node, ec: D.Node, wow: D.Node)

  /** What verification asks of the tree, apart from the two outputs. */
  ghost predicate Holds(env: Env, d: D.Tree, place: Place, r: Recorded) {
    && Collectable(d, place) && Collection(env, d, place) == r.artifacts
    && AppliedPatches(env, d, place) == Some(r.patches)
    && RoleFiles(d, place, r.artifacts, r.wine, r.ec, r.wow)
  }

  lemma WriteKeepsTree(env: Env, d: D.Tree, d': D.Tree, place: Place, w: D.Path, r: Recorded)
    requires Beside(d, d', place, w) && Holds(env, d, place, r)
    ensures Holds(env, d', place, r)
  {
    CollectionSurvives(env, d, d', place, w);
    AppliedSurvives(env, d, d', place, w);
    RoleFilesSurvive(d, d', place, w, r.artifacts, r.wine, r.ec, r.wow);
  }

  lemma ApartSurvives(env: Env, d: D.Tree, d': D.Tree, place: Place, w: D.Path, items: seq<Json>, v: D.Path)
    requires D.Rewritten(d, d', w) && ReportOk(d, place, Arr(items)) && LogsAvoid(d, place, items, w)
    requires Apart(d, place, items, v)
    ensures Apart(d', place, items, v)
  {
    D.LandSurvives(d, d', w, [], place.StatePath(), D.LINK_LIMIT);
    LogsStillAvoid(env, d, d', place, w, items, v);
  }

  lemma UndisturbedSurvives(env: Env, d: D.Tree, d': D.Tree, place: Place, w: D.Path, items: seq<Json>)
    requires D.Rewritten(d, d', w) && ReportOk(d, place, Arr(items)) && LogsAvoid(d, place, items, w)
    requires Undisturbed(d, place, items)
    ensures Undisturbed(d', place, items)
  {
    D.LandSurvives(d, d', w, [], place.ManifestPath(), D.LINK_LIMIT);
    D.LandSurvives(d, d', w, [], place.ChecksumPath(), D.LINK_LIMIT);
    var first, second := D.Landing(d, place.ManifestPath()), D.Landing(d, place.ChecksumPath());
    if first.Some? {
      ApartSurvives(env, d, d', place, w, items, first.value);
    }
    if second.Some? {
      ApartSurvives(env, d, d', place, w, items, second.value);
    }
  }

  /** The tree allows an output to be written without disturbing what verification asks. */
  ghost predicate Ready(env: Env, d: D.Tree, place: Place, items: seq<Json>, r: Recorded) {
    && D.WellFormed(d)
    && Holds(env, d, place, r)
    && ReportOk(d, place, Arr(items)) && Undisturbed(d, place, items)
  }

  lemma FileKeepsWellFormed(d: D.Tree, d': D.Tree, w: D.Path)
    requires D.WellFormed(d) && D.Rewritten(d, d', w)
    requires w in d || (w != [] && Plain(w[|w| - 1]) && D.IsDir(d, w[..|w| - 1]))
    ensures D.WellFormed(d')
  {
    forall p | p in d' ensures D.Placed(d', p) {
      if p in d {
        assert D.Placed(d, p);
      }
    }
  }

  lemma WriteRewrites(env: Env, d: D.Tree, d': D.Tree, p: D.Path, text: string)
    requires WriteText(env, d, p, text) == Some(d')
    ensures var w := D.Landing(d, p); w.Some? && D.Rewritten(d, d', w.value) && d'[w.value].data == env.encode(text)
  {
  }

  /** A written text is found by reading the same path, and the tree stays one. */
  lemma TextIsWritten(env: Env, d: D.Tree, d': D.Tree, p: D.Path, text: string)
    requires env.Lawful() && D.WellFormed(d) && WriteText(env, d, p, text) == Some(d')
    requires forall i :: 0 <= i < |p| ==> Free(p[i], '/')
    ensures var w := D.Landing(d, p); w.Some? && D.Rewritten(d, d', w.value) && D.Resolve(d', p) == w
    ensures D.WellFormed(d') && ReadText(env, d', p) == Some(text)
  {
    WriteRewrites(env, d, d', p, text);
    var w := D.Landing(d, p).value;
    D.LandIsPlaced(d, w, [], p, D.LINK_LIMIT);
    FileKeepsWellFormed(d, d', w);
    D.LandThenFollow(d, d', w, [], p, D.LINK_LIMIT);
  }

  lemma OneOutput(env: Env, d: D.Tree, d': D.Tree, place: Place, p: D.Path, text: string,
                  items: seq<Json>, r: Recorded)
    requires env.Lawful() && Ready(env, d, place, items, r)
    requires p in {place.ManifestPath(), place.ChecksumPath()} && forall i :: 0 <= i < |p| ==> Free(p[i], '/')
    requires WriteText(env, d, p, text) == Some(d')
    ensures var w := D.Landing(d, p); w.Some? && D.Rewritten(d, d', w.value) && D.Resolve(d', p) == w
    ensures Ready(env, d', place, items, r)
    ensures WithDigests(env, d', place, items) == WithDigests(env, d, place, items)
    ensures ReadText(env, d', p) == Some(text)
  {
    TextIsWritten(env, d, d', p, text);
    var w := D.Landing(d, p).value;
    WriteKeepsTree(env, d, d', place, w, r);
    ReportOkSurvives(env, d, d', place, w, items);
    DigestsSurvive(env, d, d', place, w, items);
    UndisturbedSurvives(env, d, d', place, w, items);
  }

  /** The second output leaves the first one readable. */
  lemma ManifestStays(env: Env, d: D.Tree, d': D.Tree, place: Place, w: D.Path)
    requires D.Rewritten(d, d', w) && D.Resolve(d, place.ManifestPath()) != Some(w)
    requires ReadText(env, d, place.ManifestPath()).Some?
    ensures ReadText(env, d', place.ManifestPath()) == ReadText(env, d, place.ManifestPath())
  {
    D.OpenedSurvives(d, d', w, place.ManifestPath());
  }

  lemma OutputNamesAreFree(place: Place)
    requires forall i :: 0 <= i < |place.runtime| ==> Free(place.runtime[i], '/')
    ensures forall i :: 0 <= i < |place.ManifestPath()| ==> Free(place.ManifestPath()[i], '/')
    ensures forall i :: 0 <= i < |place.ChecksumPath()| ==> Free(place.ChecksumPath()[i], '/')
  {
  }

  lemma RuntimeNamesAreFree(d: D.Tree, place: Place)
    requires D.WellFormed(d) && D.IsDir(d, place.Root())
    ensures forall i :: 0 <= i < |place.runtime| ==> Free(place.runtime[i], '/')
  {
    D.NamesArePlain(d, place.Root());
    forall i | 0 <= i < |place.runtime| ensures Free(place.runtime[i], '/') {
      assert place.Root()[i] == place.runtime[i];
    }
  }

  lemma TwoOutputs(env: Env, d: D.Tree, d1: D.Tree, d': D.Tree, place: Place, manifest: string, sums: string,
                   items: seq<Json>, r: Recorded)
    requires env.Lawful() && Ready(env, d, place, items, r)
    requires WriteText(env, d, place.ManifestPath(), manifest) == Some(d1)
    requires WriteText(env, d1, place.ChecksumPath(), sums) == Some(d')
    ensures Ready(env, d', place, items, r)
    ensures WithDigests(env, d', place, items) == WithDigests(env, d, place, items)
    ensures ReadText(env, d', place.ManifestPath()) == Some(manifest)
    ensures ReadText(env, d', place.ChecksumPath()) == Some(sums)
  {
    RuntimeNamesAreFree(d, place);
    OutputNamesAreFree(place);
    OneOutput(env, d, d1, place, place.ManifestPath(), manifest, items, r);
    OneOutput(env, d1, d', place, place.ChecksumPath(), sums, items, r);
    D.LandSurvives(d, d1, D.Landing(d, place.ManifestPath()).value, [], place.ChecksumPath(), D.LINK_LIMIT);
    ManifestStays(env, d1, d', place, D.Landing(d1, place.ChecksumPath()).value);
  }

  /** Both outputs are in place and everything else reads as it did before. */
  lemma GeneratedFacts(env: Env, d: D.Tree, place: Place, lock: Lock, items: seq<Json>)
    requires env.Lawful() && D.WellFormed(d) && ReportOk(d, place, Arr(items)) && Undisturbed(d, place, items)
    requires Generated(env, d, place, lock, WithDigests(env, d, place, items)).ok
    ensures Generable(env, d, place)
    ensures var artifacts, tests := Collection(env, d, place), WithDigests(env, d, place, items);
            var d' := Generated(env, d, place, lock, tests).tree;
            && D.WellFormed(d')
            && Collectable(d', place) && Collection(env, d', place) == artifacts
            && AppliedPatches(env, d', place) == AppliedPatches(env, d, place)
            && RequiredOk(d', place, artifacts)
            && TestsOk(env, d', place, Arr(tests))
            && ReadJson(env, d', place.ManifestPath()) == Some(ManifestOf(env, d, place, lock, tests))
            && ReadText(env, d', place.ChecksumPath()) == Some(Print(EntriesOf(artifacts)))
  {
    var artifacts, tests := Collection(env, d, place), WithDigests(env, d, place, items);
    var text := env.dump(ManifestOf(env, d, place, lock, tests));
    var d1 := WriteText(env, d, place.ManifestPath(), text).value;
    var d' := Generated(env, d, place, lock, tests).tree;
    var r := Recorded(artifacts, AppliedPatches(env, d, place).value, RoleFile(d, place, artifacts, WINE).value,
                      RoleFile(d, place, artifacts, FEX_ARM64EC).value, RoleFile(d, place, artifacts, FEX_WOW64).value);
    TwoOutputs(env, d, d1, d', place, text, Print(EntriesOf(artifacts)), items, r);
    DigestedReportOk(env, d', place, items);
  }

  /**
   A tree whose manifest was just generated verifies if and only if no artifact path holds a line break. The paths
   can be looked at before generating; line breaks are what the text form of the checksums cannot carry.
   */
  lemma GenerateThenVerify(env: Env, d: D.Tree, place: Place, lock: Lock, items: seq<Json>)
    requires env.Lawful() && D.WellFormed(d) && ReportOk(d, place, Arr(items)) && Undisturbed(d, place, items)
    requires Generated(env, d, place, lock, WithDigests(env, d, place, items)).ok
    ensures Verifies(env, Generated(env, d, place, lock, WithDigests(env, d, place, items)).tree, place, lock)
            <==> forall p :: p in Leaves(d, place.Root()) ==> NoBreaks(Relative(place, p))
  {
    GeneratedFacts(env, d, place, lock, items);
    var artifacts, tests := Collection(env, d, place), WithDigests(env, d, place, items);
    var d' := Generated(env, d, place, lock, tests).tree;
    RequiredNeedsArtifacts(d', place, artifacts);
    CollectionReadsBack(env, d, place);
    ChecksumsRoundTrip(artifacts);
    LeafPathsAreArtifactPaths(env, d, place);
    assert Verifies(env, d', place, lock) <==> ChecksumsOk(env, d', place, artifacts);
  }

  lemma LeafPathsAreArtifactPaths(env: Env, d: D.Tree, place: Place)
    ensures (forall i :: 0 <= i < |Collection(env, d, place)| ==> NoBreaks(Collection(env, d, place)[i].path))
            <==> (forall p :: p in Leaves(d, place.Root()) ==> NoBreaks(Relative(place, p)))
  {
    D.ListingIsSorted(Leaves(d, place.Root()));
    var paths := D.Listing(Leaves(d, place.Root()));
    var artifacts := Collection(env, d, place);
    forall i | 0 <= i < |paths|
      ensures |place.runtime| <= |paths[i]| && artifacts[i].path == Relative(place, paths[i])
    {
      assert paths[i] in paths;
    }
    if forall i :: 0 <= i < |artifacts| ==> NoBreaks(artifacts[i].path) {
      forall p | p in Leaves(d, place.Root()) ensures NoBreaks(Relative(place, p)) {
        assert p in paths;
        var i :| 0 <= i < |paths| && paths[i] == p;
        assert NoBreaks(artifacts[i].path);
      }
    }
    if forall p :: p in Leaves(d, place.Root()) ==> NoBreaks(Relative(place, p)) {
      forall i | 0 <= i < |artifacts| ensures NoBreaks(artifacts[i].path) {
        assert paths[i] in paths;
      }
    }
  }
}
