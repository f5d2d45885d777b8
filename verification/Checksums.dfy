/** The text form of the checksum list (scripts/generate-runtime-manifest.py:595-598, 626-643). */
module Checksums {
  import opened Options
  import opened SafePath
  import opened Text

  datatype Entry = Entry(digest: string, path: string)

  predicate IsHexDigit(c: char) {
    '0' <= c <= '9' || 'a' <= c <= 'f'
  }

  /** 64 lower-case hexadecimal digits. */
  predicate IsDigest(s: string) {
    |s| == 64 && forall i :: 0 <= i < |s| ==> IsHexDigit(s[i])
  }

  /** What `\s` matches. */
  predicate IsSpace(c: char) {
    || '\U{09}' <= c <= '\U{0D}' || '\U{1C}' <= c <= '\U{20}'
    || c in {'\U{85}', '\U{A0}', '\U{1680}', '\U{2028}', '\U{2029}', '\U{202F}', '\U{205F}', '\U{3000}'}
    || '\U{2000}' <= c <= '\U{200A}'
  }

  function LeadingSpaces(s: string): (n: nat)
    ensures n <= |s|
    ensures n < |s| ==> !IsSpace(s[n])
    ensures forall i :: 0 <= i < n ==> IsSpace(s[i])
  {
    if s == "" || !IsSpace(s[0]) then 0 else 1 + LeadingSpaces(s[1..])
  }

  /**
   The full match of `([0-9a-f]{64})\s+(.+)`. The white space is taken greedily and gives one character back when
   nothing else is left for the last group; that group never holds a newline.
   */
  function MatchLine(line: string): Option<Entry> {
    if |line| < 64 || !IsDigest(line[..64]) then None
    else
      var n := LeadingSpaces(line[64..]);
      if n == 0 then None
      else
        var from := if 64 + n < |line| then 64 + n else 64 + n - 1;
        if from == 64 || '\n' in line[from..] then None
        else Some(Entry(line[..64], line[from..]))
  }

  /** The greedy group takes all white space there is, but leaves one character to the group behind it. */
  ghost predicate MatchesAs(line: string, e: Entry, spaces: string) {
    && line == e.digest + spaces + e.path
    && |e.digest| == 64 && (forall i :: 0 <= i < 64 ==> '0' <= e.digest[i] <= '9' || 'a' <= e.digest[i] <= 'f')
    && spaces != "" && (forall i :: 0 <= i < |spaces| ==> IsSpace(spaces[i]))
    && e.path != "" && '\n' !in e.path && (|e.path| > 1 ==> !IsSpace(e.path[0]))
  }

  /** A line matches exactly if it is a digest, white space and a path, and then in only one way. */
  lemma MatchLineMeans(line: string, e: Entry)
    ensures MatchLine(line) == Some(e) <==> exists spaces :: MatchesAs(line, e, spaces)
  {
    if MatchLine(line) == Some(e) {
      SpacesBetween(line, e);
    }
    if spaces :| MatchesAs(line, e, spaces) {
      OnlyMatch(line, e, spaces);
    }
  }

  lemma SpacesBetween(line: string, e: Entry)
    requires MatchLine(line) == Some(e)
    ensures MatchesAs(line, e, line[64..|line| - |e.path|])
  {
    var rest, spaces := line[64..], line[64..|line| - |e.path|];
    var n := LeadingSpaces(rest);
    assert line == line[..64] + spaces + line[|line| - |e.path|..];
    forall i | 0 <= i < |spaces| ensures IsSpace(spaces[i]) {
      assert spaces[i] == rest[i];
    }
    if |e.path| > 1 {
      assert e.path[0] == rest[n];
    }
  }

  lemma OnlyMatch(line: string, e: Entry, spaces: string)
    requires MatchesAs(line, e, spaces)
    ensures MatchLine(line) == Some(e)
  {
    var rest := line[64..];
    assert line[..64] == e.digest && rest == spaces + e.path;
    var n := LeadingSpaces(rest);
    assert forall i :: 0 <= i < |spaces| ==> rest[i] == spaces[i];
    assert forall i :: 0 <= i < |e.path| ==> rest[|spaces| + i] == e.path[i];
    assert line[64 + |spaces|..] == e.path;
    assert n < |rest| ==> !IsSpace(rest[n]);
    if n > |spaces| {
      assert IsSpace(rest[|spaces|]);
      assert |e.path| == 1;
    }
  }

  function PrintLine(e: Entry): string {
    e.digest + "  " + e.path
  }

  /** `write_checksum_manifest`. */
  function Print(entries: seq<Entry>): string {
    Lines(seq(|entries|, i requires 0 <= i < |entries| => PrintLine(entries[i])))
  }

  /** Each entry is printed as a line of its own: digest, two spaces, path. */
  lemma PrintAppends(entries: seq<Entry>, e: Entry)
    ensures Print([]) == ""
    ensures Print(entries + [e]) == Print(entries) + e.digest + "  " + e.path + "\n"
  {
    var lines := seq(|entries|, i requires 0 <= i < |entries| => PrintLine(entries[i]));
    var more := seq(|entries + [e]|, i requires 0 <= i < |entries + [e]| => PrintLine((entries + [e])[i]));
    assert more == lines + [PrintLine(e)];
    LinesAppend(lines, PrintLine(e));
  }

  function CheckLine(line: string): Option<Entry> {
    var found := MatchLine(line);
    if found.Some? && Accepts(found.value.path, true) then found else None
  }

  /** The lines hold exactly these entries, as `check` reads them. */
  ghost predicate Reads(check: string -> Option<Entry>, lines: seq<string>, entries: seq<Entry>) {
    && |entries| == |lines|
    && forall i :: 0 <= i < |lines| ==> check(lines[i]) == Some(entries[i])
  }

  ghost predicate DistinctPaths(entries: seq<Entry>) {
    forall i, j :: 0 <= i < j < |entries| ==> entries[i].path != entries[j].path
  }

  ghost predicate Lists(check: string -> Option<Entry>, lines: seq<string>, entries: seq<Entry>) {
    entries != [] && Reads(check, lines, entries) && DistinctPaths(entries)
  }

  ghost predicate Listing(text: string, entries: seq<Entry>) {
    Lists(CheckLine, SplitLines(text), entries)
  }

  /** The map from path to digest; on distinct paths every entry is in it. */
  function ToMap(entries: seq<Entry>): map<string, string> {
    if entries == [] then map[]
    else
      var last := entries[|entries| - 1];
      ToMap(entries[..|entries| - 1])[last.path := last.digest]
  }

  ghost predicate HasPath(entries: seq<Entry>, path: string) {
    exists i :: 0 <= i < |entries| && entries[i].path == path
  }

  lemma {:induction false} KeysArePaths(entries: seq<Entry>, path: string)
    ensures path in ToMap(entries) <==> HasPath(entries, path)
  {
    if entries != [] {
      var n := |entries| - 1;
      KeysArePaths(entries[..n], path);
      if HasPath(entries[..n], path) {
        var i :| 0 <= i < n && entries[..n][i].path == path;
        assert entries[i].path == path;
      }
      if HasPath(entries, path) && path != entries[n].path {
        var i :| 0 <= i < |entries| && entries[i].path == path;
        assert entries[..n][i].path == path;
      }
    }
  }

  lemma {:induction false} ValuesAreDigests(entries: seq<Entry>, i: nat)
    requires DistinctPaths(entries) && i < |entries|
    ensures entries[i].path in ToMap(entries) && ToMap(entries)[entries[i].path] == entries[i].digest
  {
    var n := |entries| - 1;
    if i < n {
      assert entries[..n][i] == entries[i];
      ValuesAreDigests(entries[..n], i);
    }
  }

  /** The map holds each listed path with its digest, and no other path. */
  lemma ToMapMeaning(entries: seq<Entry>)
    requires DistinctPaths(entries)
    ensures forall path :: path in ToMap(entries) <==> HasPath(entries, path)
    ensures forall i :: 0 <= i < |entries| ==>
              entries[i].path in ToMap(entries) && ToMap(entries)[entries[i].path] == entries[i].digest
  {
    forall path ensures path in ToMap(entries) <==> HasPath(entries, path) {
      KeysArePaths(entries, path);
    }
    forall i | 0 <= i < |entries|
      ensures entries[i].path in ToMap(entries) && ToMap(entries)[entries[i].path] == entries[i].digest
    {
      ValuesAreDigests(entries, i);
    }
  }

  lemma FreshPathExtends(entries: seq<Entry>, e: Entry)
    requires DistinctPaths(entries) && e.path !in ToMap(entries)
    ensures DistinctPaths(entries + [e])
  {
    KeysArePaths(entries, e.path);
  }

  lemma EntriesOneMore(entries: seq<Entry>, e: Entry)
    ensures ToMap(entries + [e]) == ToMap(entries)[e.path := e.digest]
  {
    assert (entries + [e])[..|entries|] == entries;
  }

  lemma RepeatIsNoList(check: string -> Option<Entry>, lines: seq<string>, i: nat, k: nat)
    requires i < k < |lines| && check(lines[i]).Some? && check(lines[k]).Some?
    requires check(lines[i]).value.path == check(lines[k]).value.path
    ensures forall es :: !Lists(check, lines, es)
  {
  }

  /** The loop over the lines; what a single line must look like is left to `check`. */
  method ParseLines(check: string -> Option<Entry>, lines: seq<string>)
    returns (r: Option<map<string, string>>, ghost entries: seq<Entry>)
    ensures r.Some? ==> Lists(check, lines, entries) && r.value == ToMap(entries)
    ensures r.None? ==> forall es :: !Lists(check, lines, es)
  {
    entries := [];
    if lines == [] {
      return None, entries;
    }
    var result: map<string, string> := map[];
    for k := 0 to |lines|
      invariant |entries| == k && forall i :: 0 <= i < k ==> check(lines[i]) == Some(entries[i])
      invariant DistinctPaths(entries) && result == ToMap(entries)
    {
      var found := check(lines[k]);
      if found.None? {
        return None, entries;
      }
      if found.value.path in result {
        KeysArePaths(entries, found.value.path);
        ghost var i :| 0 <= i < k && entries[i].path == found.value.path;
        RepeatIsNoList(check, lines, i, k);
        return None, entries;
      }
      result := result[found.value.path := found.value.digest];
      EntriesOneMore(entries, found.value);
      FreshPathExtends(entries, found.value);
      entries := entries + [found.value];
    }
    return Some(result), entries;
  }

  /**
   `parse_checksum_manifest`: an empty text, a malformed line, an unsafe path or a repeated path is refused; otherwise
   the result is the map of the listed entries.
   */
  method Parse(text: string) returns (r: Option<map<string, string>>, ghost entries: seq<Entry>)
    ensures r.Some? ==> Listing(text, entries) && r.value == ToMap(entries)
    ensures r.None? ==> forall es :: !Listing(text, es)
  {
    r, entries := ParseLines(CheckLine, SplitLines(text));
  }

  ghost predicate Printable(entries: seq<Entry>) {
    forall i :: 0 <= i < |entries| ==> IsDigest(entries[i].digest) && Accepts(entries[i].path, true)
  }

  lemma AcceptedStartsWithRoot(path: string)
    requires Accepts(path, true)
    ensures path != "" && path[0] == 'r'
  {
    AcceptsExactly(path, true);
    JoinSplit(path, '/');
    var pieces := Split(path, '/');
    assert pieces[0] == "root" && path == Join(pieces, '/');
    assert |pieces| == 1 || path == pieces[0] + ['/'] + Join(pieces[1..], '/');
  }

  lemma TwoSpaces(path: string)
    requires path != "" && path[0] == 'r'
    ensures LeadingSpaces("  " + path) == 2
  {
    var tail := "  " + path;
    assert tail[1..] == " " + path && tail[1..][1..] == path;
  }

  lemma NoNewline(s: string)
    requires NoBreaks(s)
    ensures '\n' !in s
  {
    assert IsBreak('\n');
  }

  lemma MatchPrinted(e: Entry)
    requires IsDigest(e.digest) && Accepts(e.path, true) && NoBreaks(e.path)
    ensures MatchLine(PrintLine(e)) == Some(e)
  {
    AcceptedStartsWithRoot(e.path);
    var line := PrintLine(e);
    assert line[..64] == e.digest && line[64..] == "  " + e.path;
    TwoSpaces(e.path);
    assert line[66..] == e.path;
    NoNewline(e.path);
  }

  /** Printing and parsing undo each other on every non-empty list of distinct safe paths free of line breaks. */
  lemma ParsesWhatItPrints(entries: seq<Entry>)
    requires entries != [] && Printable(entries) && DistinctPaths(entries)
    requires forall i :: 0 <= i < |entries| ==> NoBreaks(entries[i].path)
    ensures Listing(Print(entries), entries)
  {
    var lines := seq(|entries|, i requires 0 <= i < |entries| => PrintLine(entries[i]));
    forall i | 0 <= i < |entries| ensures NoBreaks(lines[i]) && CheckLine(lines[i]) == Some(entries[i]) {
      DigestHasNoBreaks(entries[i].digest);
      MatchPrinted(entries[i]);
    }
    SplitLinesUndoesLines(lines);
  }

  lemma DigestHasNoBreaks(digest: string)
    requires IsDigest(digest)
    ensures NoBreaks(digest)
  {
  }

  /** A text lists one sequence of entries at most. */
  lemma ListingIsUnique(text: string, a: seq<Entry>, b: seq<Entry>)
    requires Listing(text, a) && Listing(text, b)
    ensures a == b
  {
    ReadsUnique(CheckLine, SplitLines(text), a, b);
  }

  /** The line matches as this entry, whose path is safe. */
  ghost predicate ReadsAs(line: string, e: Entry) {
    (exists spaces :: MatchesAs(line, e, spaces)) && Accepts(e.path, true)
  }

  lemma CheckLineMeans(line: string, e: Entry)
    ensures CheckLine(line) == Some(e) <==> ReadsAs(line, e)
  {
    MatchLineMeans(line, e);
  }

  /** A text lists these entries exactly if its lines match as them, one by one, with safe paths that all differ. */
  lemma ListingMeans(text: string, entries: seq<Entry>)
    ensures Listing(text, entries) <==>
              && entries != [] && |SplitLines(text)| == |entries|
              && (forall i :: 0 <= i < |entries| ==> ReadsAs(SplitLines(text)[i], entries[i]))
              && (forall i, j :: 0 <= i < j < |entries| ==> entries[i].path != entries[j].path)
  {
    var lines := SplitLines(text);
    forall i | 0 <= i < |entries| && i < |lines|
      ensures CheckLine(lines[i]) == Some(entries[i]) <==> ReadsAs(lines[i], entries[i])
    {
      CheckLineMeans(lines[i], entries[i]);
    }
  }

  lemma ReadsUnique(check: string -> Option<Entry>, lines: seq<string>, a: seq<Entry>, b: seq<Entry>)
    requires Reads(check, lines, a) && Reads(check, lines, b)
    ensures a == b
  {
    forall i | 0 <= i < |a| ensures a[i] == b[i] {
      assert check(lines[i]) == Some(a[i]);
    }
  }

  /** No line of any text yields a path with a line break, so such a path cannot survive the round trip. */
  lemma ListedPathsHaveNoBreaks(text: string, entries: seq<Entry>, i: nat)
    requires Listing(text, entries) && i < |entries|
    ensures NoBreaks(entries[i].path)
  {
    LinesHaveNoBreaks(text);
    var line := SplitLines(text)[i];
    assert CheckLine(line) == Some(entries[i]);
    var n := LeadingSpaces(line[64..]);
    var from := if 64 + n < |line| then 64 + n else 64 + n - 1;
    assert entries[i].path == line[from..];
    forall k | 0 <= k < |line[from..]| ensures !IsBreak(line[from..][k]) {
      assert line[from..][k] == line[from + k];
    }
  }
}
