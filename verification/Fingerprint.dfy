/**
 The fingerprint of the build inputs (scripts/build-runtime-linux-arm64.sh:27-71): an ordered list of named contents,
 written as one length-prefixed stream and hashed.
 */
module Fingerprint {
  import opened Bytes
  import opened Manifest
  import opened Options
  import opened Sorting
  import opened Text
  import D = Disk

  // ---- The stream ----

  datatype Record = Record(name: seq<Byte>, contents: seq<Byte>) {
    predicate Short() {
      |name| < TWO_TO_THE_64 && |contents| < TWO_TO_THE_64
    }
  }

  ghost predicate AllShort(records: seq<Record>) {
    forall i :: 0 <= i < |records| ==> records[i].Short()
  }

  /** `b"Graft64 build inputs v1\0"`. */
  const PREFIX: seq<Byte> := [0x47, 0x72, 0x61, 0x66, 0x74, 0x36, 0x34, 0x20, 0x62, 0x75, 0x69, 0x6C, 0x64, 0x20,
                              0x69, 0x6E, 0x70, 0x75, 0x74, 0x73, 0x20, 0x76, 0x31, 0x00]

  /** `struct.pack(">Q", v)` for `size == 8`: most significant byte first. */
  function BigEndian(v: nat, size: nat): (s: seq<Byte>)
    ensures |s| == size
    decreases v + size
  {
    if size == 0 then [] else BigEndian(v / 0x100, size - 1) + [v % 0x100]
  }

  /** The same bytes as in a little-endian field, the other way round. */
  lemma {:induction false} BigEndianIsReversed(v: nat, size: nat, i: nat)
    requires i < size
    ensures BigEndian(v, size)[i] == LittleEndian(v, size)[size - 1 - i]
    decreases size
  {
    if i < size - 1 {
      BigEndianIsReversed(v / 0x100, size - 1, i);
    }
  }

  lemma PrefixIsText()
    ensures |PREFIX| == 24
    ensures forall i :: 0 <= i < 23 ==> PREFIX[i] == "Graft64 build inputs v1"[i] as int
    ensures PREFIX[23] == 0
  {
  }

  function BigValue(s: seq<Byte>): nat {
    if s == [] then 0 else 0x100 * BigValue(s[..|s| - 1]) + s[|s| - 1]
  }

  lemma {:induction false} BigValueOfBigEndian(v: nat, size: nat)
    requires v < Pow256(size)
    ensures BigValue(BigEndian(v, size)) == v
    decreases size
  {
    if size > 0 {
      BigValueOfBigEndian(v / 0x100, size - 1);
      assert BigEndian(v, size)[..size - 1] == BigEndian(v / 0x100, size - 1);
    }
  }

  lemma {:induction false} BigEndianOfBigValue(s: seq<Byte>)
    ensures BigEndian(BigValue(s), |s|) == s
    ensures BigValue(s) < Pow256(|s|)
  {
    if s != [] {
      BigEndianOfBigValue(s[..|s| - 1]);
      assert BigValue(s) / 0x100 == BigValue(s[..|s| - 1]);
      assert BigValue(s) % 0x100 == s[|s| - 1];
    }
  }

  lemma EightBytes()
    ensures Pow256(8) == TWO_TO_THE_64
  {
    assert Pow256(4) == TWO_TO_THE_32;
    assert Pow256(8) == 0x100 * 0x100 * 0x100 * 0x100 * Pow256(4);
  }

  function FieldBytes(f: seq<Byte>): seq<Byte> {
    BigEndian(|f|, 8) + f
  }

  function RecordBytes(r: Record): seq<Byte> {
    FieldBytes(r.name) + FieldBytes(r.contents)
  }

  function StreamBytes(records: seq<Record>): seq<Byte> {
    if records == [] then [] else RecordBytes(records[0]) + StreamBytes(records[1..])
  }

  /** Reads one length-prefixed field, and what follows it. */
  function TakeField(s: seq<Byte>): (r: Option<(seq<Byte>, seq<Byte>)>)
    ensures r.Some? ==> |r.value.1| < |s|
  {
    if |s| < 8 then None
    else
      var n := BigValue(s[..8]);
      if |s| < 8 + n then None else Some((s[8..8 + n], s[8 + n..]))
  }

  function ParseStream(s: seq<Byte>): Option<seq<Record>>
    decreases |s|
  {
    if s == [] then Some([])
    else
      var name := TakeField(s);
      if name.None? then None
      else
        var contents := TakeField(name.value.1);
        if contents.None? then None
        else
          var rest := ParseStream(contents.value.1);
          if rest.None? then None else Some([Record(name.value.0, contents.value.0)] + rest.value)
  }

  lemma TakeWritten(f: seq<Byte>, rest: seq<Byte>)
    requires |f| < TWO_TO_THE_64
    ensures TakeField(FieldBytes(f) + rest) == Some((f, rest))
  {
    EightBytes();
    BigValueOfBigEndian(|f|, 8);
    var s := FieldBytes(f) + rest;
    assert s[..8] == BigEndian(|f|, 8) && s[8..8 + |f|] == f && s[8 + |f|..] == rest;
  }

  lemma WrittenTaken(s: seq<Byte>)
    requires TakeField(s).Some?
    ensures var (f, rest) := TakeField(s).value; |f| < TWO_TO_THE_64 && FieldBytes(f) + rest == s
  {
    EightBytes();
    BigEndianOfBigValue(s[..8]);
    var (f, rest) := TakeField(s).value;
    assert s == s[..8] + s[8..8 + |f|] + s[8 + |f|..];
  }

  /** Parsing undoes writing. */
  lemma {:induction false} ParseWritten(records: seq<Record>)
    requires AllShort(records)
    ensures ParseStream(StreamBytes(records)) == Some(records)
  {
    if records != [] {
      var r, tail := records[0], StreamBytes(records[1..]);
      ParseWritten(records[1..]);
      assert records == [r] + records[1..];
      StreamConsed(r, records[1..]);
      TakeWritten(r.name, FieldBytes(r.contents) + tail);
      TakeWritten(r.contents, tail);
      ParseConsed(StreamBytes(records), FieldBytes(r.contents) + tail, tail, r, records[1..]);
    }
  }

  lemma ParseConsed(s: seq<Byte>, afterName: seq<Byte>, rest: seq<Byte>, r: Record, records: seq<Record>)
    requires TakeField(s) == Some((r.name, afterName)) && TakeField(afterName) == Some((r.contents, rest))
    requires ParseStream(rest) == Some(records)
    ensures ParseStream(s) == Some([r] + records)
  {
  }

  lemma StreamConsed(r: Record, records: seq<Record>)
    ensures StreamBytes([r] + records) == FieldBytes(r.name) + (FieldBytes(r.contents) + StreamBytes(records))
  {
    assert ([r] + records)[1..] == records;
  }

  /** Every stream that parses is the stream of what it parses to. */
  lemma {:induction false} WrittenParsed(s: seq<Byte>)
    requires ParseStream(s).Some?
    ensures var records := ParseStream(s).value;
            StreamBytes(records) == s && AllShort(records)
    decreases |s|
  {
    if s != [] {
      var (name, afterName) := TakeField(s).value;
      var (contents, rest) := TakeField(afterName).value;
      WrittenTaken(s);
      WrittenTaken(afterName);
      WrittenParsed(rest);
      StreamConsed(Record(name, contents), ParseStream(rest).value);
    }
  }

  /** No two different lists share a stream. */
  lemma StreamIsInjective(a: seq<Record>, b: seq<Record>)
    requires AllShort(a) && AllShort(b)
    requires PREFIX + StreamBytes(a) == PREFIX + StreamBytes(b)
    ensures a == b
  {
    assert (PREFIX + StreamBytes(a))[|PREFIX|..] == StreamBytes(a);
    assert (PREFIX + StreamBytes(b))[|PREFIX|..] == StreamBytes(b);
    ParseWritten(a);
    ParseWritten(b);
  }

  /** A record is two fields, name before contents, each behind the eight bytes of its length. */
  lemma RecordLayout(name: seq<Byte>, contents: seq<Byte>)
    ensures var s, n, m := StreamBytes([Record(name, contents)]), |name|, |contents|;
            && |s| == 16 + n + m
            && s[..8] == BigEndian(n, 8) && s[8..8 + n] == name
            && s[8 + n..16 + n] == BigEndian(m, 8) && s[16 + n..] == contents
  {
    StreamConsed(Record(name, contents), []);
    assert [Record(name, contents)] + [] == [Record(name, contents)];
  }

  lemma {:induction false} StreamGrows(records: seq<Record>, r: Record)
    ensures StreamBytes(records + [r]) == StreamBytes(records) + RecordBytes(r)
  {
    if records == [] {
      assert [r][1..] == [];
    } else {
      StreamGrows(records[1..], r);
      assert (records + [r])[1..] == records[1..] + [r];
    }
  }

  // ---- The inputs ----

  datatype Dependency = Wine | Fex {
    function Name(): string { if Wine? then "wine" else "fex" }
  }

  datatype Input = Input(name: string, path: D.Path)

  /** The inputs named outright, and the resolved directory above `patches`. */
  datatype Sources = Sources(fixed: seq<Input>, patchRoot: D.Path) {
    function PatchDir(dependency: Dependency): D.Path { patchRoot + ["patches", dependency.Name()] }
  }

  /** A file of the repository, called by its path there. */
  function InRepository(root: D.Path, names: D.Path): Input {
    Input(Join(names, '/'), root + names)
  }

  /** The sources of a repository and its dependency lock. */
  function BuildSources(root: D.Path, lock: D.Path, patchRoot: D.Path): Sources {
    Sources([
      Input("third_party/manifest/deps.lock", lock),
      InRepository(root, ["containers", "runtime-builder", "Dockerfile"]),
      InRepository(root, ["scripts", "fetch-upstream.sh"]),
      InRepository(root, ["scripts", "apply-patches.sh"]),
      InRepository(root, ["scripts", "prepare-fex-submodules.sh"]),
      InRepository(root, ["scripts", "build-runtime-linux-arm64.sh"])
    ], patchRoot)
  }

  function DirName(dependency: Dependency): string {
    if dependency.Wine? then "patches/wine/" else "patches/fex/"
  }

  function FileName(p: D.Path): string {
    if p == [] then "" else p[|p| - 1]
  }

  function PatchInput(dependency: Dependency, p: D.Path): Input {
    Input(DirName(dependency) + FileName(p), p)
  }

  ghost predicate PatchesUsable(d: D.Tree, w: Sources) {
    && D.IsDir(d, w.patchRoot + ["patches"])
    && D.IsDir(d, w.PatchDir(Wine)) && D.IsDir(d, w.PatchDir(Fex))
    && (forall p :: p in PatchesIn(d, w.PatchDir(Wine)) ==> d[p].File?)
    && (forall p :: p in PatchesIn(d, w.PatchDir(Fex)) ==> d[p].File?)
  }

  /** The patches a fingerprint accepts are those a manifest accepts. */
  lemma UsableIsReadable(d: D.Tree, w: Sources, runtime: D.Path)
    ensures PatchesUsable(d, w) <==> PatchesReadable(d, Place(runtime, w.patchRoot))
  {
    assert w.PatchDir(Wine) == w.patchRoot + ["patches", "wine"] && w.PatchDir(Fex) == w.patchRoot + ["patches", "fex"];
  }

  function PatchInputsFrom(dependency: Dependency, paths: seq<D.Path>): (inputs: seq<Input>)
    ensures |inputs| == |paths|
    ensures forall i :: 0 <= i < |paths| ==> inputs[i] == PatchInput(dependency, paths[i])
  {
    seq(|paths|, i requires 0 <= i < |paths| => PatchInput(dependency, paths[i]))
  }

  ghost function PatchInputs(d: D.Tree, w: Sources, dependency: Dependency): seq<Input> {
    PatchInputsFrom(dependency, D.Listing(PatchesIn(d, w.PatchDir(dependency))))
  }

  ghost function InputsOf(d: D.Tree, w: Sources): seq<Input> {
    w.fixed + PatchInputs(d, w, Wine) + PatchInputs(d, w, Fex)
  }

  ghost predicate Readable(d: D.Tree, inputs: seq<Input>) {
    forall i :: 0 <= i < |inputs| ==> D.Opened(d, inputs[i].path).Some?
  }

  function RecordOf(env: Env, d: D.Tree, i: Input): Record
    requires D.Opened(d, i.path).Some?
  {
    Record(env.encode(i.name), D.Opened(d, i.path).value.data)
  }

  ghost function RecordsOf(env: Env, d: D.Tree, inputs: seq<Input>): (records: seq<Record>)
    requires Readable(d, inputs)
    ensures |records| == |inputs|
    ensures forall i :: 0 <= i < |inputs| ==> records[i] == RecordOf(env, d, inputs[i])
    ensures forall i :: 0 <= i < |inputs| ==>
              && records[i].name == env.encode(inputs[i].name)
              && records[i].contents == D.Opened(d, inputs[i].path).value.data
  {
    seq(|inputs|, i requires 0 <= i < |inputs| => RecordOf(env, d, inputs[i]))
  }

  ghost predicate Fingerprintable(env: Env, d: D.Tree, w: Sources) {
    && PatchesUsable(d, w) && Readable(d, InputsOf(d, w))
    && AllShort(RecordsOf(env, d, InputsOf(d, w)))
  }

  ghost function StreamOf(env: Env, d: D.Tree, w: Sources): seq<Byte>
    requires Fingerprintable(env, d, w)
  {
    PREFIX + StreamBytes(RecordsOf(env, d, InputsOf(d, w)))
  }

  /** The patches of one dependency, in path order. */
  method ListPatches(d: D.Tree, w: Sources, dependency: Dependency, listing: seq<D.Path>)
    returns (r: Option<seq<Input>>)
    requires D.Enumerates(PatchesIn(d, w.PatchDir(dependency)), listing)
    ensures r.Some? <==> forall p :: p in PatchesIn(d, w.PatchDir(dependency)) ==> d[p].File?
    ensures r.Some? ==> r.value == PatchInputs(d, w, dependency)
  {
    ghost var found := PatchesIn(d, w.PatchDir(dependency));
    D.ListingIsCanonical(found, listing);
    D.SortedListingOf(found, listing);
    r := AppendPatches(d, found, dependency, Sort(listing, PathLeq));
  }

  /** The loop over the sorted patches. */
  method AppendPatches(d: D.Tree, ghost found: set<D.Path>, dependency: Dependency, sorted: seq<D.Path>)
    returns (r: Option<seq<Input>>)
    requires forall p :: p in sorted <==> p in found
    requires forall p :: p in found ==> p in d
    ensures r.Some? <==> forall p :: p in found ==> d[p].File?
    ensures r.Some? ==> r.value == PatchInputsFrom(dependency, sorted)
  {
    var inputs: seq<Input> := [];
    for k := 0 to |sorted|
      invariant |inputs| == k
      invariant forall i :: 0 <= i < k ==>
                  sorted[i] in d && d[sorted[i]].File? && inputs[i] == PatchInput(dependency, sorted[i])
    {
      assert sorted[k] in sorted;
      if !d[sorted[k]].File? {
        return None;
      }
      inputs := inputs + [PatchInput(dependency, sorted[k])];
    }
    forall p | p in found ensures d[p].File? {
      assert p in sorted;
    }
    return Some(inputs);
  }

  /** The four updates of the digest for one input. */
  method Update(fed: seq<Byte>, name: seq<Byte>, contents: seq<Byte>) returns (r: seq<Byte>)
    ensures r == fed + RecordBytes(Record(name, contents))
  {
    r := fed + BigEndian(|name|, 8);
    r := r + name;
    r := r + BigEndian(|contents|, 8);
    r := r + contents;
  }

  /** One input's record; a missing file or a length beyond eight bytes is an error. */
  function ReadInput(env: Env, d: D.Tree, i: Input): Option<Record> {
    if D.Opened(d, i.path).Some? && RecordOf(env, d, i).Short() then Some(RecordOf(env, d, i)) else None
  }

  /** The loop that feeds the digest; the whole stream so far is what the digest has been given. */
  method FeedAll(read: Input -> Option<Record>, inputs: seq<Input>, start: seq<Byte>)
    returns (r: Option<seq<Byte>>, ghost records: seq<Record>)
    ensures r.Some? ==>
              && |records| == |inputs| && (forall i :: 0 <= i < |inputs| ==> read(inputs[i]) == Some(records[i]))
              && r.value == start + StreamBytes(records)
    ensures r.None? ==> exists i :: 0 <= i < |inputs| && read(inputs[i]).None?
  {
    var fed := start;
    records := [];
    for k := 0 to |inputs|
      invariant |records| == k && forall i :: 0 <= i < k ==> read(inputs[i]) == Some(records[i])
      invariant fed == start + StreamBytes(records)
    {
      var next := read(inputs[k]);
      if next.None? {
        return None, records;
      }
      fed := Update(fed, next.value.name, next.value.contents);
      StreamGrows(records, next.value);
      Concatenated(start, StreamBytes(records), RecordBytes(next.value));
      records := records + [next.value];
    }
    return Some(fed), records;
  }

  method Feed(env: Env, d: D.Tree, inputs: seq<Input>, start: seq<Byte>) returns (r: Option<seq<Byte>>)
    ensures r.Some? <==> Readable(d, inputs) && AllShort(RecordsOf(env, d, inputs))
    ensures r.Some? ==> r.value == start + StreamBytes(RecordsOf(env, d, inputs))
  {
    ghost var records: seq<Record>;
    r, records := FeedAll(i => ReadInput(env, d, i), inputs, start);
    if r.Some? {
      assert forall i :: 0 <= i < |inputs| ==> ReadInput(env, d, inputs[i]) == Some(records[i]);
      assert records == RecordsOf(env, d, inputs);
    } else {
      ghost var i :| 0 <= i < |inputs| && ReadInput(env, d, inputs[i]).None?;
      assert Readable(d, inputs) ==> !RecordsOf(env, d, inputs)[i].Short();
    }
  }

  /** The list of inputs, refused when a patch directory or a patch is not real. */
  method ListInputs(d: D.Tree, w: Sources, wine: seq<D.Path>, fex: seq<D.Path>) returns (r: Option<seq<Input>>)
    requires D.Enumerates(PatchesIn(d, w.PatchDir(Wine)), wine)
    requires D.Enumerates(PatchesIn(d, w.PatchDir(Fex)), fex)
    ensures r == if PatchesUsable(d, w) then Some(InputsOf(d, w)) else None
  {
    if !D.IsDir(d, w.patchRoot + ["patches"]) || !D.IsDir(d, w.PatchDir(Wine)) || !D.IsDir(d, w.PatchDir(Fex)) {
      return None;
    }
    var first := ListPatches(d, w, Wine, wine);
    var second := ListPatches(d, w, Fex, fex);
    if first.None? || second.None? {
      return None;
    }
    return Some(w.fixed + first.value + second.value);
  }

  /** The fingerprint program: a digest of all inputs, or nothing when one is missing or not as it must be. */
  method Compute(env: Env, d: D.Tree, w: Sources, wine: seq<D.Path>, fex: seq<D.Path>) returns (r: Option<string>)
    requires D.Enumerates(PatchesIn(d, w.PatchDir(Wine)), wine)
    requires D.Enumerates(PatchesIn(d, w.PatchDir(Fex)), fex)
    ensures r.Some? <==> Fingerprintable(env, d, w)
    ensures r.Some? ==> r.value == env.sha(StreamOf(env, d, w))
  {
    var inputs := ListInputs(d, w, wine, fex);
    if inputs.None? {
      return None;
    }
    var fed := Feed(env, d, inputs.value, PREFIX);
    if fed.None? {
      return None;
    }
    return Some(env.sha(fed.value));
  }

  // ---- What an unchanged fingerprint means ----

  /** The two states give the same list of records. */
  ghost predicate SameRecords(env: Env, d: D.Tree, d': D.Tree, w: Sources) {
    && Readable(d, InputsOf(d, w)) && Readable(d', InputsOf(d', w))
    && RecordsOf(env, d, InputsOf(d, w)) == RecordsOf(env, d', InputsOf(d', w))
  }

  lemma PatchNamesDiffer(p: D.Path, q: D.Path, a: Dependency, b: Dependency)
    requires PatchInput(a, p).name == PatchInput(b, q).name
    ensures a == b && FileName(p) == FileName(q)
  {
    DirsDiffer(a, b, FileName(p), FileName(q));
    assert PatchInput(a, p).name[|DirName(a)|..] == FileName(p);
    assert PatchInput(b, q).name[|DirName(b)|..] == FileName(q);
  }

  lemma DirsDiffer(a: Dependency, b: Dependency, s: string, t: string)
    requires DirName(a) + s == DirName(b) + t
    ensures a == b
  {
    assert (DirName(a) + s)[8] == DirName(a)[8] && (DirName(b) + t)[8] == DirName(b)[8];
  }

  /** `i` is where the patch `p` of this dependency stands among the inputs. */
  ghost predicate StandsAt(d: D.Tree, w: Sources, dependency: Dependency, p: D.Path, i: int) {
    && p in PatchesIn(d, w.PatchDir(dependency))
    && |w.fixed| <= i < |InputsOf(d, w)| && InputsOf(d, w)[i] == PatchInput(dependency, p)
  }

  lemma PatchOf(d: D.Tree, w: Sources, dependency: Dependency, k: nat) returns (p: D.Path)
    requires k < |PatchInputs(d, w, dependency)|
    ensures p in PatchesIn(d, w.PatchDir(dependency)) && PatchInputs(d, w, dependency)[k] == PatchInput(dependency, p)
  {
    D.ListingIsSorted(PatchesIn(d, w.PatchDir(dependency)));
    var paths := D.Listing(PatchesIn(d, w.PatchDir(dependency)));
    assert paths[k] in paths;
    p := paths[k];
  }

  /** Past the fixed inputs every input is a patch. */
  lemma InputIsPatch(d: D.Tree, w: Sources, i: nat) returns (dependency: Dependency, p: D.Path)
    requires |w.fixed| <= i < |InputsOf(d, w)|
    ensures StandsAt(d, w, dependency, p, i)
  {
    var n := |w.fixed| + |PatchInputs(d, w, Wine)|;
    if i < n {
      dependency := Wine;
      p := PatchStandsAt(d, w, Wine, i - |w.fixed|, i);
    } else {
      dependency := Fex;
      p := PatchStandsAt(d, w, Fex, i - n, i);
    }
  }

  lemma PatchStandsAt(d: D.Tree, w: Sources, dependency: Dependency, k: nat, i: nat) returns (p: D.Path)
    requires k < |PatchInputs(d, w, dependency)|
    requires i == k + if dependency.Wine? then |w.fixed| else |w.fixed| + |PatchInputs(d, w, Wine)|
    ensures StandsAt(d, w, dependency, p, i)
  {
    PatchStands(d, w, dependency, k, i);
    p := PatchOf(d, w, dependency, k);
  }

  lemma PatchAmong(d: D.Tree, w: Sources, dependency: Dependency, p: D.Path) returns (k: nat)
    requires p in PatchesIn(d, w.PatchDir(dependency))
    ensures k < |PatchInputs(d, w, dependency)| && PatchInputs(d, w, dependency)[k] == PatchInput(dependency, p)
  {
    D.ListingIsSorted(PatchesIn(d, w.PatchDir(dependency)));
    var paths := D.Listing(PatchesIn(d, w.PatchDir(dependency)));
    assert p in paths;
    k :| 0 <= k < |paths| && paths[k] == p;
  }

  lemma PatchIsInput(d: D.Tree, w: Sources, dependency: Dependency, p: D.Path) returns (i: nat)
    requires p in PatchesIn(d, w.PatchDir(dependency))
    ensures StandsAt(d, w, dependency, p, i)
  {
    var k := PatchAmong(d, w, dependency, p);
    i := k + if dependency.Wine? then |w.fixed| else |w.fixed| + |PatchInputs(d, w, Wine)|;
    PatchStands(d, w, dependency, k, i);
  }

  lemma PatchStands(d: D.Tree, w: Sources, dependency: Dependency, k: nat, i: nat)
    requires k < |PatchInputs(d, w, dependency)|
    requires i == k + if dependency.Wine? then |w.fixed| else |w.fixed| + |PatchInputs(d, w, Wine)|
    ensures |w.fixed| <= i < |InputsOf(d, w)| && InputsOf(d, w)[i] == PatchInputs(d, w, dependency)[k]
  {
    Middle(w.fixed, PatchInputs(d, w, Wine), PatchInputs(d, w, Fex), dependency.Wine?, k, i);
  }

  lemma Middle(fixed: seq<Input>, wine: seq<Input>, fex: seq<Input>, first: bool, k: nat, i: nat)
    requires k < if first then |wine| else |fex|
    requires i == k + if first then |fixed| else |fixed| + |wine|
    ensures i < |fixed + wine + fex| && (fixed + wine + fex)[i] == if first then wine[k] else fex[k]
  {
  }

  lemma PatchPath(d: D.Tree, dir: D.Path, p: D.Path)
    requires p in PatchesIn(d, dir)
    ensures p == dir + [FileName(p)]
  {
    assert p[..|dir|] == dir;
  }

  ghost predicate SameData(d: D.Tree, d': D.Tree, p: D.Path) {
    D.Opened(d, p).Some? && D.Opened(d', p).Some? && D.Opened(d, p).value.data == D.Opened(d', p).value.data
  }

  lemma PatchKept(env: Env, d: D.Tree, d': D.Tree, w: Sources, dependency: Dependency, p: D.Path)
    requires env.Lawful() && SameRecords(env, d, d', w)
    requires p in PatchesIn(d, w.PatchDir(dependency))
    ensures p in PatchesIn(d', w.PatchDir(dependency))
    ensures SameData(d, d', p)
  {
    var i := PatchIsInput(d, w, dependency, p);
    var dependency', q := InputIsPatch(d', w, i);
    var a, b := InputsOf(d, w)[i], InputsOf(d', w)[i];
    assert RecordOf(env, d, a) == RecordOf(env, d', b);
    assert env.decode(env.encode(a.name)) == env.decode(env.encode(b.name));
    PatchNamesDiffer(p, q, dependency, dependency');
    PatchPath(d, w.PatchDir(dependency), p);
    PatchPath(d', w.PatchDir(dependency), q);
  }

  /** Both directories hold the same patches, with the same contents. */
  ghost predicate SameDirectory(d: D.Tree, d': D.Tree, dir: D.Path) {
    && PatchesIn(d, dir) == PatchesIn(d', dir)
    && forall p :: p in PatchesIn(d, dir) ==> SameData(d, d', p)
  }

  ghost predicate SameInputs(d: D.Tree, d': D.Tree, w: Sources) {
    && (forall i :: 0 <= i < |w.fixed| ==> SameData(d, d', w.fixed[i].path))
    && (forall dependency: Dependency :: SameDirectory(d, d', w.PatchDir(dependency)))
  }

  lemma SamePatches(env: Env, d: D.Tree, d': D.Tree, w: Sources, dependency: Dependency)
    requires env.Lawful() && SameRecords(env, d, d', w)
    ensures PatchesIn(d, w.PatchDir(dependency)) == PatchesIn(d', w.PatchDir(dependency))
    ensures forall p :: p in PatchesIn(d, w.PatchDir(dependency)) ==> SameData(d, d', p)
  {
    forall p | p in PatchesIn(d, w.PatchDir(dependency))
      ensures p in PatchesIn(d', w.PatchDir(dependency)) && SameData(d, d', p)
    {
      PatchKept(env, d, d', w, dependency, p);
    }
    forall p | p in PatchesIn(d', w.PatchDir(dependency)) ensures p in PatchesIn(d, w.PatchDir(dependency)) {
      PatchKept(env, d', d, w, dependency, p);
    }
  }

  lemma SameFixedInputs(env: Env, d: D.Tree, d': D.Tree, w: Sources)
    requires SameRecords(env, d, d', w)
    ensures forall i :: 0 <= i < |w.fixed| ==> SameData(d, d', w.fixed[i].path)
  {
    forall i | 0 <= i < |w.fixed| ensures SameData(d, d', w.fixed[i].path) {
      assert InputsOf(d, w)[i] == w.fixed[i] == InputsOf(d', w)[i];
      assert RecordOf(env, d, w.fixed[i]) == RecordOf(env, d', w.fixed[i]);
    }
  }

  lemma SameRecordsSameInputs(env: Env, d: D.Tree, d': D.Tree, w: Sources)
    requires env.Lawful() && SameRecords(env, d, d', w)
    ensures SameInputs(d, d', w)
  {
    SameFixedInputs(env, d, d', w);
    SamePatches(env, d, d', w, Wine);
    SamePatches(env, d, d', w, Fex);
  }

  /**
   Two states of the repository have the same fingerprint exactly when no build input differs, as long as the digest
   separates their two streams.
   */
  lemma FingerprintDecides(env: Env, d: D.Tree, d': D.Tree, w: Sources)
    requires env.Lawful() && Fingerprintable(env, d, w) && Fingerprintable(env, d', w)
    requires env.sha(StreamOf(env, d, w)) == env.sha(StreamOf(env, d', w)) ==>
               StreamOf(env, d, w) == StreamOf(env, d', w)
    ensures env.sha(StreamOf(env, d, w)) == env.sha(StreamOf(env, d', w)) <==> SameInputs(d, d', w)
  {
    if StreamOf(env, d, w) == StreamOf(env, d', w) {
      StreamIsInjective(RecordsOf(env, d, InputsOf(d, w)), RecordsOf(env, d', InputsOf(d', w)));
      SameRecordsSameInputs(env, d, d', w);
    }
    if SameInputs(d, d', w) {
      SameInputsSameRecords(env, d, d', w);
    }
  }

  lemma SameInputsSameRecords(env: Env, d: D.Tree, d': D.Tree, w: Sources)
    requires Readable(d, InputsOf(d, w)) && Readable(d', InputsOf(d', w)) && SameInputs(d, d', w)
    ensures RecordsOf(env, d, InputsOf(d, w)) == RecordsOf(env, d', InputsOf(d', w))
  {
    assert PatchInputs(d, w, Wine) == PatchInputs(d', w, Wine);
    assert PatchInputs(d, w, Fex) == PatchInputs(d', w, Fex);
    var inputs := InputsOf(d, w);
    forall i | 0 <= i < |inputs| ensures RecordOf(env, d, inputs[i]) == RecordOf(env, d', inputs[i]) {
      if i < |w.fixed| {
        assert inputs[i] == w.fixed[i];
      } else {
        var dependency, p := InputIsPatch(d, w, i);
      }
    }
  }

  /** The six named files and the patches are the same in both states. */
  ghost predicate SameRepository(d: D.Tree, d': D.Tree, root: D.Path, lock: D.Path, patchRoot: D.Path) {
    && SameData(d, d', lock)
    && SameData(d, d', root + ["containers", "runtime-builder", "Dockerfile"])
    && SameData(d, d', root + ["scripts", "fetch-upstream.sh"])
    && SameData(d, d', root + ["scripts", "apply-patches.sh"])
    && SameData(d, d', root + ["scripts", "prepare-fex-submodules.sh"])
    && SameData(d, d', root + ["scripts", "build-runtime-linux-arm64.sh"])
    && SameDirectory(d, d', patchRoot + ["patches", "wine"])
    && SameDirectory(d, d', patchRoot + ["patches", "fex"])
  }

  lemma SixInputs(d: D.Tree, d': D.Tree, fixed: seq<Input>)
    requires |fixed| == 6
    ensures (forall i :: 0 <= i < |fixed| ==> SameData(d, d', fixed[i].path)) <==>
              && SameData(d, d', fixed[0].path) && SameData(d, d', fixed[1].path) && SameData(d, d', fixed[2].path)
              && SameData(d, d', fixed[3].path) && SameData(d, d', fixed[4].path) && SameData(d, d', fixed[5].path)
  {
  }

  lemma SameInputsParts(d: D.Tree, d': D.Tree, w: Sources)
    ensures SameInputs(d, d', w) <==>
              && (forall i :: 0 <= i < |w.fixed| ==> SameData(d, d', w.fixed[i].path))
              && SameDirectory(d, d', w.patchRoot + ["patches", "wine"])
              && SameDirectory(d, d', w.patchRoot + ["patches", "fex"])
  {
    assert w.PatchDir(Wine) == w.patchRoot + ["patches", "wine"] && w.PatchDir(Fex) == w.patchRoot + ["patches", "fex"];
    forall dependency: Dependency
      ensures w.PatchDir(dependency) in {w.patchRoot + ["patches", "wine"], w.patchRoot + ["patches", "fex"]}
    {
      assert dependency.Wine? || dependency.Fex?;
    }
  }

  /**
   The fingerprint of a repository changes exactly when one of the six named files, or a patch, changes, as long as the
   digest separates the two streams.
   */
  lemma RepositoryFingerprintDecides(
    env: Env, d: D.Tree, d': D.Tree, root: D.Path, lock: D.Path, patchRoot: D.Path)
    requires var w := BuildSources(root, lock, patchRoot);
             && env.Lawful() && Fingerprintable(env, d, w) && Fingerprintable(env, d', w)
             && (env.sha(StreamOf(env, d, w)) == env.sha(StreamOf(env, d', w)) ==>
                   StreamOf(env, d, w) == StreamOf(env, d', w))
    ensures var w := BuildSources(root, lock, patchRoot);
            env.sha(StreamOf(env, d, w)) == env.sha(StreamOf(env, d', w))
            <==> SameRepository(d, d', root, lock, patchRoot)
  {
    var w := BuildSources(root, lock, patchRoot);
    FingerprintDecides(env, d, d', w);
    SameBuildInputs(d, d', root, lock, patchRoot);
  }

  /** A file of the repository is called by its path there, joined by slashes. */
  lemma CalledByPath(root: D.Path, names: D.Path)
    requires names != [] && forall i :: 0 <= i < |names| ==> Free(names[i], '/')
    ensures var i := InRepository(root, names);
            root <= i.path && Split(i.name, '/') == i.path[|root|..]
  {
    SplitJoin(names, '/');
    assert (root + names)[|root|..] == names;
  }

  /** These are the patches of one dependency, by name, called by their path in the repository. */
  ghost predicate NamedInputs(w: Sources, dependency: string, names: seq<string>, inputs: seq<Input>) {
    && |inputs| == |names|
    && forall i :: 0 <= i < |names| ==>
         inputs[i] == Input("patches/" + dependency + "/" + names[i],
                            w.patchRoot + ["patches", dependency, names[i]])
  }

  lemma PatchIsCalled(w: Sources, dependency: Dependency, name: string)
    ensures var text := if dependency.Wine? then "wine" else "fex";
            PatchInput(dependency, w.patchRoot + ["patches", text] + [name])
            == Input("patches/" + text + "/" + name, w.patchRoot + ["patches", text, name])
  {
    var text := if dependency.Wine? then "wine" else "fex";
    assert w.patchRoot + ["patches", text] + [name] == w.patchRoot + ["patches", text, name];
    assert DirName(dependency) == "patches/" + text + "/";
  }

  lemma PatchInputsByName(d: D.Tree, w: Sources, dependency: Dependency) returns (names: seq<string>)
    ensures Ascending(names)
    ensures var text := if dependency.Wine? then "wine" else "fex";
            && (forall n :: n in names <==> HoldsPatch(d, w.patchRoot + ["patches", text], n))
            && NamedInputs(w, text, names, PatchInputs(d, w, dependency))
  {
    var dir := w.patchRoot + ["patches", if dependency.Wine? then "wine" else "fex"];
    assert dir == w.PatchDir(dependency);
    names := ListedByName(d, dir);
    forall i | 0 <= i < |names| {
      PatchIsCalled(w, dependency, names[i]);
    }
  }

  /** The fixed inputs, then the patches of wine by name, then those of fex. */
  lemma InputsByName(d: D.Tree, w: Sources) returns (wine: seq<string>, fex: seq<string>)
    ensures Ascending(wine) && forall n :: n in wine <==> HoldsPatch(d, w.patchRoot + ["patches", "wine"], n)
    ensures Ascending(fex) && forall n :: n in fex <==> HoldsPatch(d, w.patchRoot + ["patches", "fex"], n)
    ensures exists a, b :: InputsOf(d, w) == w.fixed + a + b && NamedInputs(w, "wine", wine, a)
                           && NamedInputs(w, "fex", fex, b)
  {
    wine := PatchInputsByName(d, w, Wine);
    fex := PatchInputsByName(d, w, Fex);
  }

  lemma BuildPaths(root: D.Path, lock: D.Path, patchRoot: D.Path)
    ensures var w := BuildSources(root, lock, patchRoot);
            && |w.fixed| == 6 && w.patchRoot == patchRoot
            && w.fixed[0] == Input("third_party/manifest/deps.lock", lock)
            && w.fixed[1] == InRepository(root, ["containers", "runtime-builder", "Dockerfile"])
            && w.fixed[2] == InRepository(root, ["scripts", "fetch-upstream.sh"])
            && w.fixed[3] == InRepository(root, ["scripts", "apply-patches.sh"])
            && w.fixed[4] == InRepository(root, ["scripts", "prepare-fex-submodules.sh"])
            && w.fixed[5] == InRepository(root, ["scripts", "build-runtime-linux-arm64.sh"])
  {
  }

  lemma SameBuildInputs(d: D.Tree, d': D.Tree, root: D.Path, lock: D.Path, patchRoot: D.Path)
    ensures SameInputs(d, d', BuildSources(root, lock, patchRoot)) <==> SameRepository(d, d', root, lock, patchRoot)
  {
    BuildPaths(root, lock, patchRoot);
    SameRepositoryMeans(d, d', BuildSources(root, lock, patchRoot), root, lock);
  }

  lemma SameRepositoryMeans(d: D.Tree, d': D.Tree, w: Sources, root: D.Path, lock: D.Path)
    requires |w.fixed| == 6 && w.fixed[0].path == lock
    requires w.fixed[1].path == root + ["containers", "runtime-builder", "Dockerfile"]
    requires w.fixed[2].path == root + ["scripts", "fetch-upstream.sh"]
    requires w.fixed[3].path == root + ["scripts", "apply-patches.sh"]
    requires w.fixed[4].path == root + ["scripts", "prepare-fex-submodules.sh"]
    requires w.fixed[5].path == root + ["scripts", "build-runtime-linux-arm64.sh"]
    ensures SameInputs(d, d', w) <==> SameRepository(d, d', root, lock, w.patchRoot)
  {
    SameInputsParts(d, d', w);
    SixInputs(d, d', w.fixed);
  }
}
