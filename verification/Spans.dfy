/**
 The one-pass coverage test over executable address spans.
 The plain question is "does every address of a range lie in some span?"; the validator answers it with a
 single pass over the sorted spans that pushes a cursor forward.
 */
module Spans {
  import opened Bytes
  import opened Sorting

  datatype Span = Span(start: int, end: int)

  /** The order of Python tuples `(start, end)`. */
  predicate Before(a: Span, b: Span) {
    a.start < b.start || (a.start == b.start && a.end <= b.end)
  }

  ghost predicate Contains(spans: seq<Span>, address: int) {
    exists i :: 0 <= i < |spans| && spans[i].start <= address < spans[i].end
  }

  ghost predicate Covered(spans: seq<Span>, start: int, end: int) {
    forall address :: start <= address < end ==> Contains(spans, address)
  }

  lemma BeforeIsTotalOrder()
    ensures TotalOrder(Before)
  {
  }

  lemma SortKeepsCoverage(spans: seq<Span>, address: int)
    ensures Contains(Sort(spans, Before), address) <==> Contains(spans, address)
  {
    SortPermutes(spans, Before);
    SameElements(Sort(spans, Before), spans);
    if Contains(spans, address) {
      var i :| 0 <= i < |spans| && spans[i].start <= address < spans[i].end;
      assert spans[i] in Sort(spans, Before);
    }
    if Contains(Sort(spans, Before), address) {
      var s := Sort(spans, Before);
      var i :| 0 <= i < |s| && s[i].start <= address < s[i].end;
      assert s[i] in spans;
    }
  }

  /**
   The sorted sweep stops at the first address from `start` on that no span contains.
   Nothing is asked of the spans: they may overlap, nest, be empty or come in any order.
   */
  method Sweep(spans: seq<Span>, start: int) returns (cursor: int)
    ensures start <= cursor
    ensures Covered(spans, start, cursor)
    ensures !Contains(spans, cursor)
  {
    BeforeIsTotalOrder();
    SortSorts(spans, Before);
    var sorted := Sort(spans, Before);
    cursor := start;
    for k := 0 to |sorted|
      invariant start <= cursor
      invariant Covered(sorted, start, cursor)
      invariant forall j :: 0 <= j < k ==> !(sorted[j].start <= cursor < sorted[j].end)
    {
      var span := sorted[k];
      if span.start <= cursor < span.end {
        cursor := Max(cursor, span.end);
      }
    }
    forall address ensures Contains(sorted, address) <==> Contains(spans, address) {
      SortKeepsCoverage(spans, address);
    }
  }

  /** The cursor decides coverage: it reaches the end of the range exactly when the whole range is covered. */
  lemma FrontierDecidesCoverage(spans: seq<Span>, start: int, cursor: int, end: int)
    requires start <= cursor && Covered(spans, start, cursor) && !Contains(spans, cursor)
    ensures cursor >= end <==> Covered(spans, start, end)
  {
    if cursor < end {
      assert start <= cursor < end && !Contains(spans, cursor);
    }
  }
}
