/**
 The relative paths the manifest admits (scripts/generate-runtime-manifest.py:171-184).
 `PurePosixPath` drops empty and "." components when it parses, so comparing its text with the input is what
 rejects them.
 */
module SafePath {
  import opened Text

  datatype PurePath = PurePath(root: string, names: seq<string>)

  predicate Kept(name: string) {
    name != "" && name != "."
  }

  function KeepNames(pieces: seq<string>): (names: seq<string>)
    ensures forall i :: 0 <= i < |names| ==> Kept(names[i])
  {
    if pieces == [] then []
    else if Kept(pieces[0]) then [pieces[0]] + KeepNames(pieces[1..])
    else KeepNames(pieces[1..])
  }

  /** Exactly two leading slashes are a root of their own. */
  function Parse(value: string): PurePath {
    var root := if value == "" || value[0] != '/' then ""
                else if |value| >= 2 && value[1] == '/' && !(|value| >= 3 && value[2] == '/') then "//"
                else "/";
    PurePath(root, KeepNames(Split(value, '/')))
  }

  function AsPosix(p: PurePath): string {
    if p.root == "" && p.names == [] then "." else p.root + Join(p.names, '/')
  }

  predicate IsAbsolute(value: string) {
    Parse(value).root != ""
  }

  lemma AbsoluteMeans(value: string)
    ensures IsAbsolute(value) <==> "/" <= value
  {
  }

  /** `safe_relative_path`: the value itself is returned, so all that matters is whether it is accepted. */
  predicate Accepts(value: string, rootPrefix: bool) {
    var path := Parse(value);
    && value != ""
    && !IsAbsolute(value)
    && ".." !in path.names
    && '\\' !in value
    && !("./" <= value)
    && AsPosix(path) == value
    && (rootPrefix ==> path.names != [] && path.names[0] == "root")
  }

  /** A component that names an entry of its directory. */
  predicate Plain(name: string) {
    name != "" && name != "." && name != ".." && '/' !in name
  }

  ghost predicate AllPlain(names: seq<string>) {
    forall i :: 0 <= i < |names| ==> Plain(names[i])
  }

  lemma {:induction false} KeepAll(pieces: seq<string>)
    requires forall i :: 0 <= i < |pieces| ==> Kept(pieces[i])
    ensures KeepNames(pieces) == pieces
  {
    if pieces != [] {
      KeepAll(pieces[1..]);
    }
  }

  lemma DotSplits()
    ensures Split(".", '/') == ["."] && KeepNames(["."]) == []
  {
    SplitPiece(".", '/');
  }

  lemma PlainIsAccepted(value: string, rootPrefix: bool)
    requires AllPlain(Split(value, '/')) && '\\' !in value && (rootPrefix ==> Split(value, '/')[0] == "root")
    ensures Accepts(value, rootPrefix)
  {
    var pieces := Split(value, '/');
    JoinSplit(value, '/');
    KeepAll(pieces);
  }

  lemma {:induction false} KeptAreFree(pieces: seq<string>)
    requires forall i :: 0 <= i < |pieces| ==> Free(pieces[i], '/')
    ensures forall i :: 0 <= i < |KeepNames(pieces)| ==> Free(KeepNames(pieces)[i], '/')
  {
    if pieces != [] {
      KeptAreFree(pieces[1..]);
    }
  }

  lemma AcceptedIsPlain(value: string, rootPrefix: bool)
    requires Accepts(value, rootPrefix) && KeepNames(Split(value, '/')) != []
    ensures AllPlain(Split(value, '/')) && (rootPrefix ==> Split(value, '/')[0] == "root")
  {
    var pieces := Split(value, '/');
    var names := KeepNames(pieces);
    SplitPiecesFree(value, '/');
    KeptAreFree(pieces);
    SplitJoin(names, '/');
    assert AsPosix(Parse(value)) == "" + Join(names, '/') == Join(names, '/') == value;
  }

  /** What the composed tests mean: "." or slash-separated plain components without a backslash. */
  lemma AcceptsExactly(value: string, rootPrefix: bool)
    ensures Accepts(value, rootPrefix) <==>
              || (value == "." && !rootPrefix)
              || (AllPlain(Split(value, '/')) && '\\' !in value && (rootPrefix ==> Split(value, '/')[0] == "root"))
  {
    DotSplits();
    if Accepts(value, rootPrefix) && KeepNames(Split(value, '/')) != [] {
      AcceptedIsPlain(value, rootPrefix);
    }
    if AllPlain(Split(value, '/')) && '\\' !in value && (rootPrefix ==> Split(value, '/')[0] == "root") {
      PlainIsAccepted(value, rootPrefix);
    }
  }

  /** Joining plain components gives an accepted path that splits back into them. */
  lemma JoinedIsAccepted(names: seq<string>)
    requires names != [] && AllPlain(names)
    ensures Split(Join(names, '/'), '/') == names
    ensures Accepts(Join(names, '/'), false) <==> '\\' !in Join(names, '/')
    ensures Accepts(Join(names, '/'), true) <==> '\\' !in Join(names, '/') && names[0] == "root"
  {
    SplitJoin(names, '/');
    AcceptsExactly(Join(names, '/'), false);
    AcceptsExactly(Join(names, '/'), true);
    SplitPiece(".", '/');
  }

  /** Walking a path from a base, one component at a time. */
  function Walk(base: seq<string>, names: seq<string>): seq<string>
    decreases |names|
  {
    if names == [] then base
    else if names[0] == "" || names[0] == "." then Walk(base, names[1..])
    else if names[0] == ".." then Walk(if base == [] then [] else base[..|base| - 1], names[1..])
    else Walk(base + [names[0]], names[1..])
  }

  lemma {:induction false} WalkPlain(base: seq<string>, names: seq<string>)
    requires AllPlain(names)
    ensures Walk(base, names) == base + names
    decreases |names|
  {
    if names != [] {
      WalkPlain(base + [names[0]], names[1..]);
      assert base + [names[0]] + names[1..] == base + names;
    }
  }

  /** An accepted path never leads out of the directory it starts from; with the prefix it stays under `root`. */
  lemma AcceptedStaysInside(base: seq<string>, value: string, rootPrefix: bool)
    requires Accepts(value, rootPrefix)
    ensures base <= Walk(base, Split(value, '/'))
    ensures rootPrefix ==> base + ["root"] <= Walk(base, Split(value, '/'))
  {
    AcceptsExactly(value, rootPrefix);
    if value == "." {
      SplitPiece(".", '/');
    } else {
      WalkPlain(base, Split(value, '/'));
    }
  }
}
