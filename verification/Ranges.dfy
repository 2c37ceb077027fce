/** Iteration over the ranges of the heap: every span, whatever its state, once and in address order, found with
    nothing but the page map. */
module Ranges {
  import opened Common
  import opened Spans
  import PageMaps

  const BATCH: nat := 16

  datatype Kind = InUseRange | FreeRange | UnmappedRange
  datatype Range = Range(address: int, length: int, kind: Kind)

  function RangeOf(s: Span): Range {
    Range(s.start * PAGE_SIZE, s.length * PAGE_SIZE,
          match s.location case InUse => InUseRange case Normal => FreeRange case Returned => UnmappedRange)
  }

  /** The range has the bytes of the span and says what it is: memory in use, free, or given back to the system. */
  predicate Describes(r: Range, s: Span) {
    && r.address == s.start * PAGE_SIZE && r.address + r.length == s.End() * PAGE_SIZE
    && (r.kind == InUseRange <==> s.location == InUse)
    && (r.kind == FreeRange <==> s.location == Normal)
    && (r.kind == UnmappedRange <==> s.location == Returned)
  }

  /** No span reaches over the boundary before a page. */
  ghost predicate Boundary(spans: SpanMap, page: int) {
    forall id :: id in spans ==> spans[id].End() <= page || page <= spans[id].start
  }

  /** A span that starts at or after a boundary, with no span between. */
  ghost predicate FirstAfter(spans: SpanMap, page: int, id: int) {
    && id in spans && page <= spans[id].start
    && forall b :: b in spans && page <= spans[b].start ==> spans[id].start <= spans[b].start
  }

  /** From a boundary, the first mapped page is the first page of the next span, and it names that span, although the
      page map is arbitrary on interior pages. */
  lemma NextIsFirst(spans: SpanMap, pages: PageMap, page: int, at: int)
    requires BoundaryTags(spans, pages) && Boundary(spans, page) && page <= at && at in pages
    requires PageMaps.NoneMapped(pages, page, at)
    ensures FirstAfter(spans, page, pages[at]) && spans[pages[at]].start == at
  {
    assert Covered(spans, at);
    var id :| id in spans && spans[id].Covers(at);
    assert spans[id].start in pages;
  }

  /** The boundary moves to the end of the span just found. */
  lemma BoundaryAdvances(spans: SpanMap, page: int, id: int)
    requires WellFormed(spans) && Disjoint(spans) && FirstAfter(spans, page, id)
    ensures Boundary(spans, spans[id].End())
    ensures forall b :: b in spans && b != id && page <= spans[b].start ==> spans[id].End() <= spans[b].start
  {
    forall b | b in spans && b != id
      ensures spans[b].End() <= spans[id].start || spans[id].End() <= spans[b].start
    {
      assert Apart(spans[b], spans[id]);
    }
    assert Boundary(spans, spans[id].End());
  }

  /** The ranges of exactly the spans with pages from first up to page, in strictly increasing order of address. */
  ghost predicate Visited(spans: SpanMap, first: int, page: int, ranges: seq<Range>) {
    && (forall id :: id in spans && first <= spans[id].start && spans[id].End() <= page ==>
          RangeOf(spans[id]) in ranges)
    && (forall i :: 0 <= i < |ranges| ==> IsSpan(spans, first, page, ranges[i]))
    && (forall i, j :: 0 <= i < j < |ranges| ==> ranges[i].address + ranges[i].length <= ranges[j].address)
  }

  ghost predicate IsSpan(spans: SpanMap, first: int, page: int, r: Range) {
    exists id :: id in spans && first <= spans[id].start && spans[id].End() <= page && r == RangeOf(spans[id])
  }

  lemma VisitOne(spans: SpanMap, first: int, page: int, ranges: seq<Range>, id: int)
    requires WellFormed(spans) && Disjoint(spans) && first <= page && Visited(spans, first, page, ranges)
    requires FirstAfter(spans, page, id) && Boundary(spans, page)
    ensures Visited(spans, first, spans[id].End(), ranges + [RangeOf(spans[id])])
  {
    var after := ranges + [RangeOf(spans[id])];
    BoundaryAdvances(spans, page, id);
    forall b | b in spans && first <= spans[b].start && spans[b].End() <= spans[id].End()
      ensures RangeOf(spans[b]) in after
    {
      if b == id {
        assert after[|ranges|] == RangeOf(spans[id]);
      } else {
        assert spans[b].End() <= page;
        assert RangeOf(spans[b]) in ranges;
      }
    }
    forall i | 0 <= i < |after|
      ensures IsSpan(spans, first, spans[id].End(), after[i])
    {
      if i < |ranges| {
        assert IsSpan(spans, first, page, ranges[i]);
      }
    }
    forall i | 0 <= i < |ranges|
      ensures ranges[i].address + ranges[i].length <= RangeOf(spans[id]).address
    {
      assert IsSpan(spans, first, page, ranges[i]);
    }
  }

  /** The range of the first span at or after a boundary. */
  method GetNextRange(pagemap: PageMaps.PageMap<int>, spans: SpanMap, start: nat)
    returns (r: Option<Range>, ghost id: int)
    requires pagemap.Valid() && BoundaryTags(spans, pagemap.contents) && Boundary(spans, start)
    ensures r.Some? ==>
              && FirstAfter(spans, start, id) && spans[id].End() <= pagemap.g.Pages()
              && r.value == RangeOf(spans[id]) && Describes(r.value, spans[id])
    ensures r.None? ==> forall b :: b in spans ==> spans[b].End() <= start
  {
    var next, at := pagemap.Next(start);
    if next.None? {
      forall b | b in spans
        ensures spans[b].End() <= start
      {
        assert spans[b].start in pagemap.contents;
      }
      return None, 0;
    }
    NextIsFirst(spans, pagemap.contents, start, at);
    id := next.value;
    assert spans[id].End() - 1 in pagemap.contents;
    return Some(RangeOf(spans[next.value])), next.value;
  }

  lemma Advance(spans: SpanMap, page: int, before: seq<Range>, ranges: seq<Range>, id: int)
    requires WellFormed(spans) && Disjoint(spans) && 1 <= page && Visited(spans, 1, page, before + ranges)
    requires FirstAfter(spans, page, id) && Boundary(spans, page)
    ensures var r := RangeOf(spans[id]);
            && page < spans[id].End() == (r.address + r.length + PAGE_SIZE - 1) / PAGE_SIZE
            && Boundary(spans, spans[id].End())
            && Visited(spans, 1, spans[id].End(), before + (ranges + [r]))
  {
    BoundaryAdvances(spans, page, id);
    VisitOne(spans, 1, page, before + ranges, id);
    var r := RangeOf(spans[id]);
    assert r.address + r.length == spans[id].End() * PAGE_SIZE;
    assert before + (ranges + [r]) == (before + ranges) + [r];
  }

  /** A batch in the making: the ranges up to a boundary continue those before it. */
  ghost predicate Collected(spans: SpanMap, start: int, page: int, before: seq<Range>, ranges: seq<Range>, limit: int) {
    && |ranges| <= BATCH && 1 <= start <= page && Boundary(spans, page) && Visited(spans, 1, page, before + ranges)
    && (|ranges| > 0 ==> start < page <= limit)
  }

  /** One more range for the batch. */
  method CollectOne(pagemap: PageMaps.PageMap<int>, spans: SpanMap, page: nat, ranges: seq<Range>,
                    ghost start: nat, ghost before: seq<Range>)
    returns (more: seq<Range>, next: nat, done: bool)
    requires pagemap.Valid() && BoundaryTags(spans, pagemap.contents) && |ranges| < BATCH
    requires Collected(spans, start, page, before, ranges, pagemap.g.Pages())
    ensures Collected(spans, start, next, before, more, pagemap.g.Pages())
    ensures done ==> more == ranges && next == page && forall b :: b in spans ==> spans[b].End() <= page
    ensures !done ==> |more| == |ranges| + 1
  {
    var r, id := GetNextRange(pagemap, spans, page);
    if r.None? {
      return ranges, page, true;
    }
    Advance(spans, page, before, ranges, id);
    var limit := r.value.address + r.value.length;
    return ranges + [r.value], (limit + PAGE_SIZE - 1) / PAGE_SIZE, false;
  }

  /** One batch of at most 16 ranges, collected under the page heap lock. */
  method CollectBatch(pagemap: PageMaps.PageMap<int>, spans: SpanMap, start: nat, ghost before: seq<Range>)
    returns (ranges: seq<Range>, page: nat, done: bool)
    requires pagemap.Valid() && BoundaryTags(spans, pagemap.contents)
    requires Boundary(spans, start) && start >= 1 && Visited(spans, 1, start, before)
    ensures |ranges| <= BATCH && Boundary(spans, page) && Visited(spans, 1, page, before + ranges)
    ensures done ==> forall b :: b in spans ==> spans[b].End() <= page
    ensures page >= start && (!done ==> start < page <= pagemap.g.Pages())
  {
    ranges, page, done := [], start, false;
    assert before + ranges == before;
    while |ranges| < BATCH && !done
      invariant Collected(spans, start, page, before, ranges, pagemap.g.Pages())
      invariant done ==> forall b :: b in spans ==> spans[b].End() <= page
      decreases !done, BATCH - |ranges|
    {
      ranges, page, done := CollectOne(pagemap, spans, page, ranges, start, before);
    }
  }

  /** On a heap that nothing else changes meanwhile, the callback gets the range of every span exactly once, in
      strictly increasing order of address, and nothing else. */
  method IterateOverRanges(pagemap: PageMaps.PageMap<int>, spans: SpanMap) returns (reported: seq<Range>)
    requires pagemap.Valid() && BoundaryTags(spans, pagemap.contents)
    ensures forall id :: id in spans ==> exists r :: r in reported && Describes(r, spans[id])
    ensures forall r :: r in reported ==> exists id :: id in spans && Describes(r, spans[id])
    ensures forall i, j :: 0 <= i < j < |reported| ==> reported[i].address + reported[i].length <= reported[j].address
  {
    reported := [];
    var page, done := 1, false;
    while !done
      invariant page >= 1 && Boundary(spans, page) && Visited(spans, 1, page, reported)
      invariant done ==> forall b :: b in spans ==> spans[b].End() <= page
      decreases !done, pagemap.g.Pages() - page
    {
      var batch;
      batch, page, done := CollectBatch(pagemap, spans, page, reported);
      reported := reported + batch;
    }
    forall r | r in reported
      ensures exists id :: id in spans && Describes(r, spans[id])
    {
      assert IsSpan(spans, 1, page, r);
      var id :| id in spans && r == RangeOf(spans[id]);
      assert Describes(r, spans[id]);
    }
    forall id | id in spans
      ensures exists r :: r in reported && Describes(r, spans[id])
    {
      assert Describes(RangeOf(spans[id]), spans[id]);
    }
  }
}
