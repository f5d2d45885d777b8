/** The string operations of the manifest tool: `split`, `join`, `splitlines` and the orders used by `sorted`. */
module Text {
  import opened Sorting

  /** `s.split(sep)`: always at least one piece. */
  function Split(s: string, sep: char): (pieces: seq<string>)
    ensures |pieces| >= 1
  {
    if s == "" then [""]
    else
      var rest := Split(s[1..], sep);
      if s[0] == sep then [""] + rest else [[s[0]] + rest[0]] + rest[1..]
  }

  /** `sep.join(pieces)`. */
  function Join(pieces: seq<string>, sep: char): string {
    if pieces == [] then ""
    else if |pieces| == 1 then pieces[0]
    else pieces[0] + [sep] + Join(pieces[1..], sep)
  }

  ghost predicate Free(s: string, sep: char) {
    sep !in s
  }

  lemma {:induction false} JoinSplit(s: string, sep: char)
    ensures Join(Split(s, sep), sep) == s
  {
    if s != "" {
      JoinSplit(s[1..], sep);
      var rest := Split(s[1..], sep);
      assert s == [s[0]] + s[1..];
      if s[0] == sep {
        assert Split(s, sep)[1..] == rest;
      } else {
        assert Split(s, sep)[1..] == rest[1..];
      }
    }
  }

  lemma {:induction false} SplitPiecesFree(s: string, sep: char)
    ensures forall i :: 0 <= i < |Split(s, sep)| ==> Free(Split(s, sep)[i], sep)
  {
    if s != "" {
      SplitPiecesFree(s[1..], sep);
      var rest := Split(s[1..], sep);
      assert Free(rest[0], sep);
    }
  }

  lemma {:induction false} SplitPiece(piece: string, sep: char)
    requires Free(piece, sep)
    ensures Split(piece, sep) == [piece]
  {
    if piece != "" {
      SplitPiece(piece[1..], sep);
      assert [piece[0]] + piece[1..] == piece;
    }
  }

  lemma {:induction false} SplitFirst(piece: string, rest: string, sep: char)
    requires Free(piece, sep)
    ensures Split(piece + [sep] + rest, sep) == [piece] + Split(rest, sep)
  {
    var s := piece + [sep] + rest;
    if piece == "" {
      assert s[1..] == rest;
    } else {
      SplitFirst(piece[1..], rest, sep);
      assert s[1..] == piece[1..] + [sep] + rest;
      assert [s[0]] + piece[1..] == piece;
    }
  }

  lemma {:induction false} SplitJoin(pieces: seq<string>, sep: char)
    requires pieces != [] && forall i :: 0 <= i < |pieces| ==> Free(pieces[i], sep)
    ensures Split(Join(pieces, sep), sep) == pieces
  {
    if |pieces| == 1 {
      SplitPiece(pieces[0], sep);
    } else {
      SplitJoin(pieces[1..], sep);
      SplitFirst(pieces[0], Join(pieces[1..], sep), sep);
    }
  }

  /** Joined lists of separator-free pieces are equal only if the lists are. */
  lemma JoinInjective(a: seq<string>, b: seq<string>, sep: char)
    requires a != [] && b != [] && Join(a, sep) == Join(b, sep)
    requires forall i :: 0 <= i < |a| ==> Free(a[i], sep)
    requires forall i :: 0 <= i < |b| ==> Free(b[i], sep)
    ensures a == b
  {
    SplitJoin(a, sep);
    SplitJoin(b, sep);
  }

  // ---- Lines ----

  /** The characters on which `splitlines` breaks. */
  predicate IsBreak(c: char) {
    c in {'\n', '\r', '\U{0B}', '\U{0C}', '\U{1C}', '\U{1D}', '\U{1E}', '\U{85}', '\U{2028}', '\U{2029}'}
  }

  ghost predicate NoBreaks(s: string) {
    forall i :: 0 <= i < |s| ==> !IsBreak(s[i])
  }

  function FirstBreak(s: string): (n: nat)
    ensures n <= |s|
    ensures forall i :: 0 <= i < n ==> !IsBreak(s[i])
    ensures n < |s| ==> IsBreak(s[n])
  {
    if s == "" || IsBreak(s[0]) then 0 else 1 + FirstBreak(s[1..])
  }

  /** `s.splitlines()`: a final break ends the last line, and CR LF is one break. */
  function SplitLines(s: string): seq<string>
    decreases |s|
  {
    if s == "" then []
    else
      var n := FirstBreak(s);
      if n == |s| then [s]
      else
        var width := if s[n] == '\r' && n + 1 < |s| && s[n + 1] == '\n' then 2 else 1;
        [s[..n]] + SplitLines(s[n + width..])
  }

  lemma {:induction false} LinesHaveNoBreaks(s: string)
    ensures forall i :: 0 <= i < |SplitLines(s)| ==> NoBreaks(SplitLines(s)[i])
    decreases |s|
  {
    if s != "" {
      var n := FirstBreak(s);
      if n < |s| {
        var width := if s[n] == '\r' && n + 1 < |s| && s[n + 1] == '\n' then 2 else 1;
        LinesHaveNoBreaks(s[n + width..]);
      }
    }
  }

  /** Every break ends a line, and CR LF together end one. */
  lemma EveryBreakEndsALine(line: string, br: string, rest: string)
    requires NoBreaks(line)
    requires br == "\r\n" || (|br| == 1 && IsBreak(br[0]) && !(br == "\r" && "\n" <= rest))
    ensures SplitLines(line + br + rest) == [line] + SplitLines(rest)
    ensures forall c :: c in "\n\r\U{0B}\U{0C}\U{1C}\U{1D}\U{1E}\U{85}\U{2028}\U{2029}" <==> IsBreak(c)
  {
    var s := line + br + rest;
    var n := FirstBreak(s);
    assert s[|line|] == br[0] && IsBreak(br[0]);
    assert forall i :: 0 <= i < |line| ==> s[i] == line[i];
    assert n == |line| && s[..n] == line;
    if br == "\r\n" {
      assert s[n + 1] == '\n' && s[n + 2..] == rest;
    } else {
      assert s[n + 1..] == rest;
    }
  }

  /** Each line followed by a newline. */
  function Lines(lines: seq<string>): string {
    Join(lines, '\n') + (if lines == [] then "" else "\n")
  }

  lemma {:induction false} LinesAppend(lines: seq<string>, line: string)
    ensures Lines(lines + [line]) == Lines(lines) + line + "\n"
  {
    if lines == [] {
      assert lines + [line] == [line];
    } else {
      var rest := lines[1..];
      LinesAppend(rest, line);
      assert (lines + [line])[1..] == rest + [line];
      LinesSplit(lines);
      LinesSplit(lines + [line]);
    }
  }

  lemma LinesSplit(lines: seq<string>)
    requires lines != []
    ensures Lines(lines) == lines[0] + "\n" + Lines(lines[1..])
  {
  }

  lemma {:induction false} SplitLinesUndoesLines(lines: seq<string>)
    requires forall i :: 0 <= i < |lines| ==> NoBreaks(lines[i])
    ensures SplitLines(Lines(lines)) == lines
  {
    if lines != [] {
      var s, rest := Lines(lines), Lines(lines[1..]);
      assert s == lines[0] + "\n" + rest;
      var n := FirstBreak(s);
      assert n == |lines[0]| by {
        assert s[|lines[0]|] == '\n';
        assert forall i :: 0 <= i < |lines[0]| ==> s[i] == lines[0][i];
      }
      assert s[..n] == lines[0] && s[n + 1..] == rest;
      SplitLinesUndoesLines(lines[1..]);
    }
  }

  // ---- Orders ----

  predicate CharLeq(a: char, b: char) {
    a <= b
  }

  /** Lexicographic order, as Python compares strings and lists. */
  predicate LexLeq<T(==)>(leq: (T, T) -> bool, a: seq<T>, b: seq<T>) {
    || a == []
    || (b != [] && if a[0] == b[0] then LexLeq(leq, a[1..], b[1..]) else leq(a[0], b[0]))
  }

  predicate StringLeq(a: string, b: string) {
    LexLeq(CharLeq, a, b)
  }

  /** Paths compare component by component. */
  predicate PathLeq(a: seq<string>, b: seq<string>) {
    LexLeq(StringLeq, a, b)
  }

  /** `a` comes first where the two lists part, or `b` goes on from it. */
  ghost predicate PartsBelow<T(!new)>(leq: (T, T) -> bool, a: seq<T>, b: seq<T>, k: int) {
    && 0 <= k <= |a| && k <= |b| && a[..k] == b[..k]
    && (k == |a| || (k < |b| && a[k] != b[k] && leq(a[k], b[k])))
  }

  lemma {:induction false} LexMeans<T(!new)>(leq: (T, T) -> bool, a: seq<T>, b: seq<T>)
    ensures LexLeq(leq, a, b) <==> exists k :: PartsBelow(leq, a, b, k)
  {
    if a == [] {
      assert PartsBelow(leq, a, b, 0);
    } else if b != [] && a[0] == b[0] {
      LexMeans(leq, a[1..], b[1..]);
      assert a == [a[0]] + a[1..] && b == [b[0]] + b[1..];
      if k :| PartsBelow(leq, a[1..], b[1..], k) {
        assert a[..k + 1] == [a[0]] + a[1..][..k] && b[..k + 1] == [b[0]] + b[1..][..k];
        assert PartsBelow(leq, a, b, k + 1);
      }
      if k :| PartsBelow(leq, a, b, k) {
        assert k > 0 && a[1..][..k - 1] == a[..k][1..] && b[1..][..k - 1] == b[..k][1..];
        assert PartsBelow(leq, a[1..], b[1..], k - 1);
      }
    } else if b != [] && leq(a[0], b[0]) {
      assert PartsBelow(leq, a, b, 0);
    } else if k :| PartsBelow(leq, a, b, k) {
      SamePrefix(a, b, k);
      assert false;
    }
  }

  lemma SamePrefix<T>(a: seq<T>, b: seq<T>, k: nat)
    requires k <= |a| && k <= |b| && a[..k] == b[..k]
    ensures k > 0 ==> a[0] == b[0]
  {
    if k > 0 {
      assert a[..k][0] == b[..k][0];
    }
  }

  /** Strings compare by the code points where they part, and a prefix comes first; paths do so by components. */
  lemma OrdersMean(s: string, t: string, p: seq<string>, q: seq<string>)
    ensures StringLeq(s, t) <==>
              exists k :: 0 <= k <= |s| && k <= |t| && s[..k] == t[..k]
                && (k == |s| || (k < |t| && s[k] < t[k]))
    ensures PathLeq(p, q) <==>
              exists k :: 0 <= k <= |p| && k <= |q| && p[..k] == q[..k]
                && (k == |p| || (k < |q| && p[k] != q[k] && StringLeq(p[k], q[k])))
  {
    LexMeans(CharLeq, s, t);
    LexMeans(StringLeq, p, q);
    forall k ensures PartsBelow(CharLeq, s, t, k) <==>
                       0 <= k <= |s| && k <= |t| && s[..k] == t[..k] && (k == |s| || (k < |t| && s[k] < t[k]))
    {
    }
    forall k ensures PartsBelow(StringLeq, p, q, k) <==>
                       0 <= k <= |p| && k <= |q| && p[..k] == q[..k]
                       && (k == |p| || (k < |q| && p[k] != q[k] && StringLeq(p[k], q[k])))
    {
    }
  }

  lemma {:induction false} LexTotal<T(!new)>(leq: (T, T) -> bool, a: seq<T>, b: seq<T>)
    requires TotalOrder(leq)
    ensures LexLeq(leq, a, b) || LexLeq(leq, b, a)
    ensures LexLeq(leq, a, b) && LexLeq(leq, b, a) ==> a == b
  {
    if a != [] && b != [] && a[0] == b[0] {
      LexTotal(leq, a[1..], b[1..]);
      assert a == [a[0]] + a[1..] && b == [b[0]] + b[1..];
    }
  }

  lemma {:induction false} LexTransitive<T(!new)>(leq: (T, T) -> bool, a: seq<T>, b: seq<T>, c: seq<T>)
    requires TotalOrder(leq) && LexLeq(leq, a, b) && LexLeq(leq, b, c)
    ensures LexLeq(leq, a, c)
  {
    if a != [] && a[0] == b[0] && b[0] == c[0] {
      LexTransitive(leq, a[1..], b[1..], c[1..]);
    }
  }

  lemma StringOrderIsTotal()
    ensures TotalOrder(StringLeq)
  {
    assert TotalOrder(CharLeq);
    forall a, b ensures StringLeq(a, b) || StringLeq(b, a)
                ensures StringLeq(a, b) && StringLeq(b, a) ==> a == b {
      LexTotal(CharLeq, a, b);
    }
    forall a, b, c | StringLeq(a, b) && StringLeq(b, c) ensures StringLeq(a, c) {
      LexTransitive(CharLeq, a, b, c);
    }
  }

  /** The order of paths is total, and strict on distinct paths. */
  lemma PathOrderIsTotal()
    ensures TotalOrder(PathLeq)
  {
    StringOrderIsTotal();
    forall a, b ensures PathLeq(a, b) || PathLeq(b, a)
                ensures PathLeq(a, b) && PathLeq(b, a) ==> a == b {
      LexTotal(StringLeq, a, b);
    }
    forall a, b, c | PathLeq(a, b) && PathLeq(b, c) ensures PathLeq(a, c) {
      LexTransitive(StringLeq, a, b, c);
    }
  }
}
