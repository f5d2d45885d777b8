/**
 A file tree and the walk that resolves symbolic links in it.
 A path is the list of its components below the top directory.
 */
module Disk {
  import opened Bytes
  import opened Options
  import opened SafePath
  import opened Sorting
  import opened Text

  datatype Node =
    | File(data: seq<Byte>, runnable: bool)
    | Link(target: string)
    | Dir
    | Special

  type Path = seq<string>
  type Tree = map<Path, Node>

  /** An entry has a plain name and a directory above it; a link is not empty. */
  ghost predicate Placed(d: Tree, p: Path) {
    && (p != [] ==> Plain(p[|p| - 1]) && p[..|p| - 1] in d && d[p[..|p| - 1]].Dir?)
    && (p in d && d[p].Link? ==> d[p].target != "")
  }

  ghost predicate WellFormed(d: Tree) {
    && [] in d && d[[]].Dir?
    && forall p {:trigger Placed(d, p)} :: p in d ==> Placed(d, p)
  }

  predicate IsDir(d: Tree, p: Path) {
    p in d && d[p].Dir?
  }

  predicate IsLink(d: Tree, p: Path) {
    p in d && d[p].Link?
  }

  /** The number of links one resolution may follow before it counts as a loop. */
  const LINK_LIMIT: nat := 40

  /** Follows `todo` from the directory `at`, links included; nothing when an entry is missing or not a directory. */
  function Follow(d: Tree, at: Path, todo: seq<string>, links: nat): Option<Path>
    decreases links, |todo|
  {
    if todo == [] then Some(at)
    else if !IsDir(d, at) then None
    else
      var name, rest := todo[0], todo[1..];
      if name == "" || name == "." then Follow(d, at, rest, links)
      else if name == ".." then Follow(d, if at == [] then [] else at[..|at| - 1], rest, links)
      else if at + [name] !in d then None
      else
        match d[at + [name]]
        case Link(target) =>
          if links == 0 then None
          else Follow(d, if IsAbsolute(target) then [] else at, Split(target, '/') + rest, links - 1)
        case _ => Follow(d, at + [name], rest, links)
  }

  /** `path.resolve(strict=True)`. */
  function Resolve(d: Tree, p: Path): Option<Path> {
    Follow(d, [], p, LINK_LIMIT)
  }

  /** The regular file a path leads to. */
  function Opened(d: Tree, p: Path): (r: Option<Node>)
    ensures r.Some? ==> r.value.File?
  {
    var q := Resolve(d, p);
    if q.Some? && q.value in d && d[q.value].File? then Some(d[q.value]) else None
  }

  // ---- What a resolution finds ----

  /** A resolution ends at an entry that is no link. */
  lemma {:induction false} FollowEndsInReal(d: Tree, at: Path, todo: seq<string>, links: nat)
    requires WellFormed(d) && at in d && !d[at].Link?
    ensures var q := Follow(d, at, todo, links); q.Some? ==> q.value in d && !d[q.value].Link?
    decreases links, |todo|
  {
    if todo != [] && IsDir(d, at) {
      var name, rest := todo[0], todo[1..];
      if name == "" || name == "." {
        FollowEndsInReal(d, at, rest, links);
      } else if name == ".." {
        if at != [] {
          assert Placed(d, at);
        }
        FollowEndsInReal(d, if at == [] then [] else at[..|at| - 1], rest, links);
      } else if at + [name] in d {
        match d[at + [name]]
        case Link(target) =>
          if links > 0 {
            FollowEndsInReal(d, if IsAbsolute(target) then [] else at, Split(target, '/') + rest, links - 1);
          }
        case _ =>
          FollowEndsInReal(d, at + [name], rest, links);
      }
    }
  }

  /** What a path resolves to is an entry that is no link, and resolving that changes nothing. */
  lemma ResolvingIsFinal(d: Tree, p: Path)
    requires WellFormed(d)
    ensures var q := Resolve(d, p);
            q.Some? ==> q.value in d && !d[q.value].Link? && Resolve(d, q.value) == q
  {
    FollowEndsInReal(d, [], p, LINK_LIMIT);
    if Resolve(d, p).Some? {
      EntryResolvesToItself(d, Resolve(d, p).value);
    }
  }

  /** Where there are no links, resolving is walking: "." stays and ".." goes up. */
  lemma {:induction false} FollowWithoutLinks(d: Tree, at: Path, todo: seq<string>, links: nat)
    requires forall p :: p in d ==> !d[p].Link?
    ensures Follow(d, at, todo, links).Some? ==> Follow(d, at, todo, links) == Some(Walk(at, todo))
    decreases |todo|
  {
    if todo != [] && IsDir(d, at) {
      var name, rest := todo[0], todo[1..];
      if name == "" || name == "." {
        FollowWithoutLinks(d, at, rest, links);
      } else if name == ".." {
        FollowWithoutLinks(d, if at == [] then [] else at[..|at| - 1], rest, links);
      } else if at + [name] in d {
        FollowWithoutLinks(d, at + [name], rest, links);
      }
    }
  }

  lemma {:induction false} MoreLinksDoNotHurt(d: Tree, at: Path, todo: seq<string>, links: nat, more: nat)
    requires links <= more && Follow(d, at, todo, links).Some?
    ensures Follow(d, at, todo, more) == Follow(d, at, todo, links)
    decreases links, |todo|
  {
    if todo != [] {
      var name, rest := todo[0], todo[1..];
      if name == "" || name == "." {
        MoreLinksDoNotHurt(d, at, rest, links, more);
      } else if name == ".." {
        MoreLinksDoNotHurt(d, if at == [] then [] else at[..|at| - 1], rest, links, more);
      } else {
        match d[at + [name]]
        case Link(target) =>
          MoreLinksDoNotHurt(d, if IsAbsolute(target) then [] else at, Split(target, '/') + rest, links - 1, more - 1);
        case _ =>
          MoreLinksDoNotHurt(d, at + [name], rest, links, more);
      }
    }
  }

  lemma RealPathsLead(d: Tree, dir: Path, rest: seq<string>)
    requires WellFormed(d) && IsDir(d, dir)
    ensures Resolve(d, dir + rest) == Follow(d, dir, rest, LINK_LIMIT)
  {
    NamesArePlain(d, dir);
    forall i | 0 <= i <= |dir| ensures [] + dir[..i] in d && d[[] + dir[..i]].Dir? {
      assert [] + dir[..i] == dir[..i];
      if i < |dir| {
        AncestorsAreDirs(d, dir, i);
      } else {
        assert dir[..i] == dir;
      }
    }
    FollowConcat(d, [], dir, rest, LINK_LIMIT);
    assert [] + dir == dir;
  }

  /** A path that resolves through a link resolves as if the target stood in its place. */
  lemma LinkStandsForItsTarget(d: Tree, dir: Path, name: string, target: string, rest: seq<string>)
    requires WellFormed(d) && IsDir(d, dir) && dir + [name] in d && d[dir + [name]] == Link(target)
    requires Resolve(d, dir + [name] + rest).Some?
    ensures Resolve(d, dir + [name] + rest)
         == Resolve(d, (if "/" <= target then [] else dir) + (Split(target, '/') + rest))
  {
    assert Placed(d, dir + [name]);
    assert dir + [name] + rest == dir + ([name] + rest);
    RealPathsLead(d, dir, [name] + rest);
    assert ([name] + rest)[1..] == rest;
    var from := if "/" <= target then [] else dir;
    AbsoluteMeans(target);
    assert IsDir(d, from);
    MoreLinksDoNotHurt(d, from, Split(target, '/') + rest, LINK_LIMIT - 1, LINK_LIMIT);
    RealPathsLead(d, from, Split(target, '/') + rest);
  }

  // ---- Writing a file does not disturb the rest ----

  /** `d'` is `d` with the file at `w` created or replaced. */
  ghost predicate Rewritten(d: Tree, d': Tree, w: Path) {
    && d'.Keys == d.Keys + {w}
    && (w in d ==> d[w].File?) && d'[w].File?
    && forall p :: p in d && p != w ==> d'[p] == d[p]
  }

  /** Whatever resolved before still resolves to the same place. */
  lemma {:induction false} FollowSurvives(d: Tree, d': Tree, w: Path, at: Path, todo: seq<string>, links: nat)
    requires Rewritten(d, d', w) && Follow(d, at, todo, links).Some?
    ensures Follow(d', at, todo, links) == Follow(d, at, todo, links)
    decreases links, |todo|
  {
    if todo != [] {
      var name, rest := todo[0], todo[1..];
      assert IsDir(d', at);
      if name == "" || name == "." {
        FollowSurvives(d, d', w, at, rest, links);
      } else if name == ".." {
        FollowSurvives(d, d', w, if at == [] then [] else at[..|at| - 1], rest, links);
      } else {
        match d[at + [name]]
        case Link(target) =>
          FollowSurvives(d, d', w, if IsAbsolute(target) then [] else at, Split(target, '/') + rest, links - 1);
        case _ =>
          FollowSurvives(d, d', w, at + [name], rest, links);
      }
    }
  }

  lemma OpenedSurvives(d: Tree, d': Tree, w: Path, p: Path)
    requires Rewritten(d, d', w) && Opened(d, p).Some? && Resolve(d, p) != Some(w)
    ensures Resolve(d', p) == Resolve(d, p) && Opened(d', p) == Opened(d, p)
  {
    FollowSurvives(d, d', w, [], p, LINK_LIMIT);
  }

  // ---- Opening a path for writing ----

  /** Where a file opened for writing is found or created: like `Follow`, but the last name may be missing. */
  function Land(d: Tree, at: Path, todo: seq<string>, links: nat): Option<Path>
    decreases links, |todo|
  {
    if todo == [] then Some(at)
    else if !IsDir(d, at) then None
    else
      var name, rest := todo[0], todo[1..];
      if name == "" || name == "." then Land(d, at, rest, links)
      else if name == ".." then Land(d, if at == [] then [] else at[..|at| - 1], rest, links)
      else if at + [name] !in d then
        if rest == [] then Some(at + [name]) else None
      else
        match d[at + [name]]
        case Link(target) =>
          if links == 0 then None
          else Land(d, if IsAbsolute(target) then [] else at, Split(target, '/') + rest, links - 1)
        case _ => Land(d, at + [name], rest, links)
  }

  function Landing(d: Tree, p: Path): Option<Path> {
    Land(d, [], p, LINK_LIMIT)
  }

  /** What was written is found by reading the same path. */
  lemma {:induction false} LandThenFollow(d: Tree, d': Tree, w: Path, at: Path, todo: seq<string>, links: nat)
    requires Land(d, at, todo, links) == Some(w) && Rewritten(d, d', w)
    ensures Follow(d', at, todo, links) == Some(w)
    decreases links, |todo|
  {
    if todo != [] {
      var name, rest := todo[0], todo[1..];
      assert IsDir(d', at);
      if name == "" || name == "." {
        LandThenFollow(d, d', w, at, rest, links);
      } else if name == ".." {
        LandThenFollow(d, d', w, if at == [] then [] else at[..|at| - 1], rest, links);
      } else if at + [name] in d {
        match d[at + [name]]
        case Link(target) =>
          LandThenFollow(d, d', w, if IsAbsolute(target) then [] else at, Split(target, '/') + rest, links - 1);
        case _ =>
          LandThenFollow(d, d', w, at + [name], rest, links);
      }
    }
  }

  /** Writing one file does not move the place where another path is written. */
  lemma {:induction false} LandSurvives(d: Tree, d': Tree, w: Path, at: Path, todo: seq<string>, links: nat)
    requires Rewritten(d, d', w)
    ensures Land(d', at, todo, links) == Land(d, at, todo, links)
    decreases links, |todo|
  {
    if todo != [] && IsDir(d, at) {
      var name, rest := todo[0], todo[1..];
      assert IsDir(d', at);
      if name == "" || name == "." {
        LandSurvives(d, d', w, at, rest, links);
      } else if name == ".." {
        LandSurvives(d, d', w, if at == [] then [] else at[..|at| - 1], rest, links);
      } else if at + [name] in d {
        match d[at + [name]]
        case Link(target) =>
          if links > 0 {
            LandSurvives(d, d', w, if IsAbsolute(target) then [] else at, Split(target, '/') + rest, links - 1);
          }
        case _ =>
          LandSurvives(d, d', w, at + [name], rest, links);
      }
    }
  }

  /** Nothing but a path that leads to the written place can lead anywhere else than before. */
  lemma {:induction false} OthersStillLead(d: Tree, d': Tree, w: Path, at: Path, todo: seq<string>, links: nat)
    requires Rewritten(d, d', w) && Land(d, at, todo, links) != Some(w)
    ensures Follow(d', at, todo, links) == Follow(d, at, todo, links) != Some(w)
    decreases links, |todo|
  {
    if todo != [] && IsDir(d, at) {
      var name, rest := todo[0], todo[1..];
      assert IsDir(d', at);
      if name == "" || name == "." {
        OthersStillLead(d, d', w, at, rest, links);
      } else if name == ".." {
        OthersStillLead(d, d', w, if at == [] then [] else at[..|at| - 1], rest, links);
      } else if at + [name] in d {
        match d[at + [name]]
        case Link(target) =>
          if links > 0 {
            OthersStillLead(d, d', w, if IsAbsolute(target) then [] else at, Split(target, '/') + rest, links - 1);
          }
        case _ =>
          OthersStillLead(d, d', w, at + [name], rest, links);
      }
    }
  }

  /** A new file gets a plain name in a directory. */
  lemma {:induction false} LandIsPlaced(d: Tree, w: Path, at: Path, todo: seq<string>, links: nat)
    requires Land(d, at, todo, links) == Some(w) && WellFormed(d) && at in d
    requires forall i :: 0 <= i < |todo| ==> Free(todo[i], '/')
    ensures w in d || (w != [] && Plain(w[|w| - 1]) && IsDir(d, w[..|w| - 1]))
    decreases links, |todo|
  {
    if todo != [] {
      var name, rest := todo[0], todo[1..];
      if name == "" || name == "." {
        LandIsPlaced(d, w, at, rest, links);
      } else if name == ".." {
        if at != [] {
          assert Placed(d, at);
        }
        LandIsPlaced(d, w, if at == [] then [] else at[..|at| - 1], rest, links);
      } else if at + [name] in d {
        match d[at + [name]]
        case Link(target) =>
          SplitPiecesFree(target, '/');
          LandIsPlaced(d, w, if IsAbsolute(target) then [] else at, Split(target, '/') + rest, links - 1);
        case _ =>
          LandIsPlaced(d, w, at + [name], rest, links);
      } else {
        assert w[..|w| - 1] == at && w[|w| - 1] == name;
      }
    }
  }

  /** A path through real directories leads where it says. */
  lemma {:induction false} RealPathResolves(d: Tree, at: Path, todo: seq<string>, links: nat)
    requires AllPlain(todo) && IsDir(d, at)
    requires forall i :: 0 <= i < |todo| ==> at + todo[..i] in d && d[at + todo[..i]].Dir?
    requires at + todo in d && !d[at + todo].Link?
    ensures Follow(d, at, todo, links) == Some(at + todo)
    decreases |todo|
  {
    if todo == [] {
      assert at + todo == at;
    } else {
      var next := at + [todo[0]];
      assert todo == [todo[0]] + todo[1..] && at + todo == next + todo[1..];
      assert forall i :: 0 <= i < |todo[1..]| ==> next + todo[1..][..i] == at + todo[..i + 1];
      if |todo| > 1 {
        assert at + todo[..1] == next;
      } else {
        assert at + todo == next;
      }
      if IsDir(d, next) {
        RealPathResolves(d, next, todo[1..], links);
      } else {
        assert todo[1..] == [];
      }
    }
  }

  lemma {:induction false} AncestorsAreDirs(d: Tree, p: Path, i: nat)
    requires WellFormed(d) && p in d && i < |p|
    ensures p[..i] in d && d[p[..i]].Dir?
    decreases |p|
  {
    assert Placed(d, p);
    if i < |p| - 1 {
      AncestorsAreDirs(d, p[..|p| - 1], i);
      assert p[..|p| - 1][..i] == p[..i];
    }
  }

  lemma {:induction false} NamesArePlain(d: Tree, p: Path)
    requires WellFormed(d) && p in d
    ensures AllPlain(p)
    decreases |p|
  {
    if p != [] {
      assert Placed(d, p);
      NamesArePlain(d, p[..|p| - 1]);
      forall i | 0 <= i < |p| ensures Plain(p[i]) {
        assert i < |p| - 1 ==> p[..|p| - 1][i] == p[i];
      }
    }
  }

  /** In a well-formed tree an entry that is no link resolves to itself. */
  lemma EntryResolvesToItself(d: Tree, p: Path)
    requires WellFormed(d) && p in d && !d[p].Link?
    ensures Resolve(d, p) == Some(p)
  {
    NamesArePlain(d, p);
    forall i | 0 <= i < |p| ensures [] + p[..i] in d && d[[] + p[..i]].Dir? {
      AncestorsAreDirs(d, p, i);
      assert [] + p[..i] == p[..i];
    }
    assert [] + p == p;
    RealPathResolves(d, [], p, LINK_LIMIT);
  }

  lemma {:induction false} FollowConcat(d: Tree, at: Path, first: seq<string>, rest: seq<string>, links: nat)
    requires AllPlain(first) && IsDir(d, at)
    requires forall i :: 0 <= i <= |first| ==> at + first[..i] in d && d[at + first[..i]].Dir?
    ensures Follow(d, at, first + rest, links) == Follow(d, at + first, rest, links)
    decreases |first|
  {
    if first == [] {
      assert at + first == at && first + rest == rest;
    } else {
      var next := at + [first[0]];
      assert at + first[..1] == next && at + first == next + first[1..];
      assert (first + rest)[1..] == first[1..] + rest;
      assert forall i :: 0 <= i <= |first[1..]| ==> next + first[1..][..i] == at + first[..i + 1];
      FollowConcat(d, next, first[1..], rest, links);
    }
  }

  /** A name missing from a real directory leads nowhere. */
  lemma MissingDoesNotResolve(d: Tree, dir: Path, name: string)
    requires WellFormed(d) && IsDir(d, dir) && Plain(name) && dir + [name] !in d
    ensures Resolve(d, dir + [name]) == None
  {
    RealPathsLead(d, dir, [name]);
  }

  // ---- Listing a directory ----

  ghost predicate StrictlySorted(paths: seq<Path>) {
    forall i, j :: 0 <= i < j < |paths| ==> PathLeq(paths[i], paths[j]) && paths[i] != paths[j]
  }

  ghost predicate SortedListing(s: set<Path>, paths: seq<Path>) {
    && StrictlySorted(paths)
    && forall p :: p in paths <==> p in s
  }

  /** The enumeration a file system happens to give: every path once, in any order. */
  ghost predicate Enumerates(s: set<Path>, listing: seq<Path>) {
    && (forall p :: p in listing <==> p in s)
    && (forall i, j :: 0 <= i < j < |listing| ==> listing[i] != listing[j])
  }

  lemma {:induction false} DistinctCounts(s: seq<Path>, p: Path)
    requires forall i, j :: 0 <= i < j < |s| ==> s[i] != s[j]
    ensures multiset(s)[p] == if p in s then 1 else 0
  {
    if s != [] {
      DistinctCounts(s[1..], p);
      assert s == [s[0]] + s[1..];
      assert s[0] !in s[1..];
    }
  }

  lemma SameDistinctElements(a: seq<Path>, b: seq<Path>)
    requires forall p :: p in a <==> p in b
    requires forall i, j :: 0 <= i < j < |a| ==> a[i] != a[j]
    requires forall i, j :: 0 <= i < j < |b| ==> b[i] != b[j]
    ensures multiset(a) == multiset(b)
  {
    forall p ensures multiset(a)[p] == multiset(b)[p] {
      DistinctCounts(a, p);
      DistinctCounts(b, p);
    }
  }

  /** Sorting any enumeration of a set of paths gives its one strictly increasing listing. */
  lemma SortedListingOf(s: set<Path>, listing: seq<Path>)
    requires Enumerates(s, listing)
    ensures SortedListing(s, Sort(listing, PathLeq))
    ensures forall paths :: SortedListing(s, paths) ==> paths == Sort(listing, PathLeq)
  {
    PathOrderIsTotal();
    SortSorts(listing, PathLeq);
    var sorted := Sort(listing, PathLeq);
    SameElements(sorted, listing);
    forall i, j | 0 <= i < j < |sorted| ensures sorted[i] != sorted[j] {
      DistinctCounts(listing, sorted[i]);
      SortedCopiesDiffer(sorted, i, j);
    }
    forall paths | SortedListing(s, paths) ensures paths == sorted {
      SameDistinctElements(paths, sorted);
      SortedIsUnique(paths, sorted, PathLeq);
    }
  }

  lemma SortedCopiesDiffer(s: seq<Path>, i: int, j: int)
    requires 0 <= i < j < |s| && multiset(s)[s[i]] <= 1
    ensures s[i] != s[j]
  {
    assert s == s[..j] + [s[j]] + s[j + 1..];
    assert s[i] in s[..j];
  }

  ghost function SomeEnumeration(s: set<Path>): seq<Path> {
    if s == {} then []
    else
      var p :| p in s;
      [p] + SomeEnumeration(s - {p})
  }

  lemma {:induction false} SomeEnumerationEnumerates(s: set<Path>)
    ensures Enumerates(s, SomeEnumeration(s))
  {
    if s != {} {
      var p :| p in s && SomeEnumeration(s) == [p] + SomeEnumeration(s - {p});
      SomeEnumerationEnumerates(s - {p});
      assert forall q :: q in SomeEnumeration(s) <==> q == p || q in SomeEnumeration(s - {p});
    }
  }

  /** The strictly increasing listing of a set of paths. */
  ghost function Listing(s: set<Path>): seq<Path> {
    Sort(SomeEnumeration(s), PathLeq)
  }

  lemma ListingIsSorted(s: set<Path>)
    ensures SortedListing(s, Listing(s))
  {
    SomeEnumerationEnumerates(s);
    SortedListingOf(s, SomeEnumeration(s));
  }

  lemma ListingIsUnique(s: set<Path>, paths: seq<Path>)
    requires SortedListing(s, paths)
    ensures paths == Listing(s)
  {
    SomeEnumerationEnumerates(s);
    SortedListingOf(s, SomeEnumeration(s));
  }

  /** The listing does not depend on the enumeration it is sorted from. */
  lemma ListingIsCanonical(s: set<Path>, listing: seq<Path>)
    requires Enumerates(s, listing)
    ensures Sort(listing, PathLeq) == Listing(s)
  {
    SortedListingOf(s, listing);
    ListingIsUnique(s, Sort(listing, PathLeq));
  }
}
