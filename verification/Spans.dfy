/** Spans and the page map. A span descriptor is an entry of a map from identifiers (its address) to values; a
    deleted descriptor is absent and its identifier may be handed out again, so a stale page map entry may name
    nothing or an unrelated span. */
module Spans {

  datatype Location = InUse | Normal | Returned

  datatype Span = Span(start: int, length: int, location: Location, sizeclass: int) {
    function End(): int { start + length }
    predicate Covers(p: int) { start <= p < start + length }
  }

  type SpanMap = map<int, Span>
  type PageMap = map<int, int>

  ghost predicate WellFormed(spans: SpanMap) {
    forall id :: id in spans ==>
      && spans[id].start >= 1 && spans[id].length >= 1 && spans[id].sizeclass >= 0
      && (spans[id].location != InUse ==> spans[id].sizeclass == 0)
  }

  ghost predicate Apart(a: Span, b: Span) {
    a.End() <= b.start || b.End() <= a.start
  }

  ghost predicate Disjoint(spans: SpanMap) {
    forall a, b {:trigger Apart(spans[a], spans[b])} :: a in spans && b in spans && a != b ==> Apart(spans[a], spans[b])
  }

  ghost predicate Covered(spans: SpanMap, p: int) {
    exists id :: id in spans && spans[id].Covers(p)
  }

  /** The page map names the span at its first and last page, and at every page of a span that holds objects. */
  ghost predicate Tagged(spans: SpanMap, pages: PageMap) {
    forall id :: id in spans ==>
      var s := spans[id];
      && s.start in pages && pages[s.start] == id
      && s.End() - 1 in pages && pages[s.End() - 1] == id
      && (s.sizeclass > 0 ==> forall p :: s.Covers(p) ==> p in pages && pages[p] == id)
  }

  /** Pages outside every span read NULL. Nothing is said about interior pages. */
  ghost predicate NoStrays(spans: SpanMap, pages: PageMap) {
    forall p {:trigger Covered(spans, p)} :: p in pages ==> Covered(spans, p)
  }

  ghost predicate BoundaryTags(spans: SpanMap, pages: PageMap) {
    WellFormed(spans) && Disjoint(spans) && Tagged(spans, pages) && NoStrays(spans, pages)
  }

  /** No two adjacent free spans have the same location. */
  ghost predicate Coalesced(spans: SpanMap) {
    forall a, b :: a in spans && b in spans && spans[a].End() == spans[b].start ==>
      spans[a].location == InUse || spans[a].location != spans[b].location
  }

  /** The spans in use: what clients of the page heap see. */
  ghost function Used(spans: SpanMap): SpanMap {
    map id | id in spans && spans[id].location == InUse :: spans[id]
  }

  ghost predicate SameCoverage(before: SpanMap, after: SpanMap) {
    forall p :: Covered(before, p) <==> Covered(after, p)
  }

  // ----- boundary tags are exact

  /** Whatever the page map says about the page before a span is right: the span that ends there, or nothing. */
  lemma NeighbourBefore(spans: SpanMap, pages: PageMap, id: int)
    requires BoundaryTags(spans, pages) && id in spans
    ensures var p := spans[id].start - 1;
            if p in pages then pages[p] in spans && pages[p] != id && spans[pages[p]].End() == spans[id].start
            else !Covered(spans, p)
  {
    var p := spans[id].start - 1;
    forall b | b in spans && spans[b].Covers(p)
      ensures b != id && spans[b].End() == spans[id].start
    {
      assert Apart(spans[b], spans[id]);
    }
    assert p in pages ==> Covered(spans, p);
  }

  /** Likewise for the page after a span. */
  lemma NeighbourAfter(spans: SpanMap, pages: PageMap, id: int)
    requires BoundaryTags(spans, pages) && id in spans
    ensures var p := spans[id].End();
            if p in pages then pages[p] in spans && pages[p] != id && spans[pages[p]].start == p
            else !Covered(spans, p)
  {
    var p := spans[id].End();
    forall b | b in spans && spans[b].Covers(p)
      ensures b != id && spans[b].start == p
    {
      assert Apart(spans[b], spans[id]);
    }
    assert p in pages ==> Covered(spans, p);
  }

  // ----- what coalescing means for pages

  /** The page belongs to a span at the location. */
  ghost predicate PageAt(spans: SpanMap, p: int, l: Location) {
    exists id :: id in spans && spans[id].Covers(p) && spans[id].location == l
  }

  /** The page before a free span is not in a free span of the same kind. */
  lemma KindChangesBefore(spans: SpanMap, id: int)
    requires WellFormed(spans) && Disjoint(spans) && Coalesced(spans) && id in spans && spans[id].location != InUse
    ensures !PageAt(spans, spans[id].start - 1, spans[id].location)
  {
    forall b | b in spans && spans[b].Covers(spans[id].start - 1)
      ensures spans[b].location != spans[id].location
    {
      assert Apart(spans[b], spans[id]);
    }
  }

  /** Free space is never fragmented artificially: a run of consecutive pages that are all free, or all returned, lies
      within one span. */
  lemma RunWithinOneSpan(spans: SpanMap, l: Location, first: int, last: int) returns (id: int)
    requires WellFormed(spans) && Disjoint(spans) && Coalesced(spans) && l != InUse && first <= last
    requires forall p :: first <= p <= last ==> PageAt(spans, p, l)
    ensures id in spans && spans[id].location == l && spans[id].start <= first && last < spans[id].End()
  {
    assert PageAt(spans, last, l);
    id :| id in spans && spans[id].Covers(last) && spans[id].location == l;
    KindChangesBefore(spans, id);
  }

  // ----- joining two adjacent spans: the descriptor of one goes, the other grows over both

  function Join(spans: SpanMap, keep: int, gone: int): SpanMap
    requires keep in spans && gone in spans
  {
    var k, g := spans[keep], spans[gone];
    (spans - {gone})[keep := k.(start := if g.start < k.start then g.start else k.start, length := k.length + g.length)]
  }

  ghost predicate Adjacent(a: Span, b: Span) {
    a.End() == b.start || b.End() == a.start
  }

  lemma JoinCoverage(spans: SpanMap, keep: int, gone: int)
    requires WellFormed(spans) && keep in spans && gone in spans && keep != gone
    requires Adjacent(spans[keep], spans[gone])
    ensures SameCoverage(spans, Join(spans, keep, gone))
  {
    var after := Join(spans, keep, gone);
    forall p
      ensures Covered(spans, p) <==> Covered(after, p)
    {
      if Covered(spans, p) {
        var b :| b in spans && spans[b].Covers(p);
        var c := if b == gone then keep else b;
        assert after[c].Covers(p);
      }
      if Covered(after, p) {
        var b :| b in after && after[b].Covers(p);
        if b == keep {
          assert spans[keep].Covers(p) || spans[gone].Covers(p);
        } else {
          assert spans[b].Covers(p);
        }
      }
    }
  }

  lemma JoinDisjoint(spans: SpanMap, keep: int, gone: int)
    requires WellFormed(spans) && Disjoint(spans) && keep in spans && gone in spans && keep != gone
    requires Adjacent(spans[keep], spans[gone])
    ensures Disjoint(Join(spans, keep, gone))
  {
    var after := Join(spans, keep, gone);
    forall a, b | a in after && b in after && a != b
      ensures Apart(after[a], after[b])
    {
      if a == keep || b == keep {
        var c := if a == keep then b else a;
        assert Apart(spans[keep], spans[c]) && Apart(spans[gone], spans[c]);
      } else {
        assert Apart(spans[a], spans[b]);
      }
    }
  }

  /** The boundary that moves when span gone is joined to span keep. */
  function MovedEdge(spans: SpanMap, keep: int, gone: int): int
    requires keep in spans && gone in spans
  {
    var k, g := spans[keep], spans[gone];
    if g.start < k.start then g.start else k.start + k.length + g.length - 1
  }

  /** Only the boundary that moved needs a new page map entry; the entries in between go stale. */
  lemma JoinKeepsTags(spans: SpanMap, pages: PageMap, keep: int, gone: int)
    requires BoundaryTags(spans, pages) && keep in spans && gone in spans && keep != gone
    requires Adjacent(spans[keep], spans[gone])
    requires spans[keep].sizeclass == 0 && spans[gone].sizeclass == 0
    ensures BoundaryTags(Join(spans, keep, gone), pages[MovedEdge(spans, keep, gone) := keep])
  {
    var after, edge := Join(spans, keep, gone), MovedEdge(spans, keep, gone);
    JoinDisjoint(spans, keep, gone);
    JoinCoverage(spans, keep, gone);
    forall p | p in pages[edge := keep]
      ensures Covered(after, p)
    {
      assert p == edge ==> after[keep].Covers(p);
      assert p in pages ==> Covered(spans, p);
    }
    forall c | c in after && c != keep
      ensures !after[c].Covers(edge)
    {
      assert Apart(after[c], after[keep]);
    }
  }

  // ----- cutting a span in two

  /** Span id keeps its first n pages; the rest becomes span rest. */
  function Cut(spans: SpanMap, id: int, n: int, rest: int): SpanMap
    requires id in spans
  {
    var s := spans[id];
    spans[rest := Span(s.start + n, s.length - n, s.location, 0)][id := s.(length := n)]
  }

  /** The page map entries written by a cut: both ends of the rest, then the new last page of the first part. */
  function CutPages(pages: PageMap, s: Span, n: int, id: int, rest: int): PageMap {
    pages[s.start + n := rest][s.End() - 1 := rest][s.start + n - 1 := id]
  }

  lemma CutCoverage(spans: SpanMap, id: int, n: int, rest: int)
    requires id in spans && rest !in spans && 0 < n < spans[id].length
    ensures SameCoverage(spans, Cut(spans, id, n, rest))
  {
    var after := Cut(spans, id, n, rest);
    forall p
      ensures Covered(spans, p) <==> Covered(after, p)
    {
      if Covered(spans, p) {
        var b :| b in spans && spans[b].Covers(p);
        var c := if b == id && p >= spans[id].start + n then rest else b;
        assert after[c].Covers(p);
      }
      if Covered(after, p) {
        var b :| b in after && after[b].Covers(p);
        var c := if b == rest then id else b;
        assert spans[c].Covers(p);
      }
    }
  }

  lemma CutKeepsTags(spans: SpanMap, pages: PageMap, id: int, n: int, rest: int)
    requires BoundaryTags(spans, pages) && id in spans && rest !in spans
    requires 0 < n < spans[id].length && spans[id].sizeclass == 0
    ensures BoundaryTags(Cut(spans, id, n, rest), CutPages(pages, spans[id], n, id, rest))
  {
    CutDisjoint(spans, id, n, rest);
    CutTags(spans, pages, id, n, rest);
    CutStrays(spans, pages, id, n, rest);
  }

  lemma CutDisjoint(spans: SpanMap, id: int, n: int, rest: int)
    requires Disjoint(spans) && id in spans && rest !in spans && 0 < n < spans[id].length
    ensures Disjoint(Cut(spans, id, n, rest))
  {
    var after := Cut(spans, id, n, rest);
    forall a, b | a in after && b in after && a != b
      ensures Apart(after[a], after[b])
    {
      var a0, b0 := if a == rest then id else a, if b == rest then id else b;
      assert a0 != b0 ==> Apart(spans[a0], spans[b0]);
    }
  }

  lemma CutStrays(spans: SpanMap, pages: PageMap, id: int, n: int, rest: int)
    requires NoStrays(spans, pages) && id in spans && rest !in spans && 0 < n < spans[id].length
    ensures NoStrays(Cut(spans, id, n, rest), CutPages(pages, spans[id], n, id, rest))
  {
    CutCoverage(spans, id, n, rest);
    forall p | p in CutPages(pages, spans[id], n, id, rest)
      ensures Covered(Cut(spans, id, n, rest), p)
    {
      assert p !in pages ==> spans[id].Covers(p);
      assert Covered(spans, p);
    }
  }

  /** The entries of the other spans are not touched. */
  lemma CutTagsOther(spans: SpanMap, pages: PageMap, id: int, n: int, rest: int, c: int, p: int)
    requires Disjoint(spans) && id in spans && c in spans && c != id && 0 < n < spans[id].length
    requires spans[c].Covers(p) && p in pages
    ensures var pages' := CutPages(pages, spans[id], n, id, rest); p in pages' && pages'[p] == pages[p]
  {
    assert Apart(spans[c], spans[id]);
  }

  /** The two parts are named at their ends. */
  lemma CutTagsOwn(spans: SpanMap, pages: PageMap, id: int, n: int, rest: int)
    requires id in spans && rest != id && 0 < n < spans[id].length
    requires spans[id].start in pages && pages[spans[id].start] == id
    ensures var s, pages' := spans[id], CutPages(pages, spans[id], n, id, rest);
            && s.start in pages' && pages'[s.start] == id && s.start + n - 1 in pages' && pages'[s.start + n - 1] == id
            && s.start + n in pages' && pages'[s.start + n] == rest
            && s.End() - 1 in pages' && pages'[s.End() - 1] == rest
  {
  }

  lemma CutTags(spans: SpanMap, pages: PageMap, id: int, n: int, rest: int)
    requires BoundaryTags(spans, pages) && id in spans && rest !in spans
    requires 0 < n < spans[id].length && spans[id].sizeclass == 0
    ensures Tagged(Cut(spans, id, n, rest), CutPages(pages, spans[id], n, id, rest))
  {
    var after, pages' := Cut(spans, id, n, rest), CutPages(pages, spans[id], n, id, rest);
    CutTagsOwn(spans, pages, id, n, rest);
    forall c | c in after
      ensures after[c].start in pages' && pages'[after[c].start] == c
      ensures after[c].End() - 1 in pages' && pages'[after[c].End() - 1] == c
      ensures after[c].sizeclass > 0 ==> forall p :: after[c].Covers(p) ==> p in pages' && pages'[p] == c
    {
      if c != id && c != rest {
        CutTagsOther(spans, pages, id, n, rest, c, spans[c].start);
        CutTagsOther(spans, pages, id, n, rest, c, spans[c].End() - 1);
        forall p | after[c].sizeclass > 0 && after[c].Covers(p)
          ensures p in pages' && pages'[p] == c
        {
          CutTagsOther(spans, pages, id, n, rest, c, p);
        }
      }
    }
  }

  // ----- a region fresh from the system

  ghost predicate Vacant(spans: SpanMap, start: int, length: int) {
    forall p :: start <= p < start + length ==> !Covered(spans, p)
  }

  lemma AddCoverage(spans: SpanMap, id: int, s: Span)
    requires id !in spans
    ensures forall p :: Covered(spans[id := s], p) <==> Covered(spans, p) || s.Covers(p)
  {
    var after := spans[id := s];
    forall p
      ensures Covered(after, p) <==> Covered(spans, p) || s.Covers(p)
    {
      if Covered(spans, p) {
        var b :| b in spans && spans[b].Covers(p);
        assert after[b].Covers(p);
      }
      if s.Covers(p) {
        assert after[id].Covers(p);
      }
    }
  }

  lemma VacantIsApart(spans: SpanMap, b: int, s: Span)
    requires WellFormed(spans) && b in spans && s.length >= 1 && Vacant(spans, s.start, s.length)
    ensures Apart(spans[b], s)
  {
    var t := spans[b];
    var p := if t.start < s.start then s.start else t.start;
    assert !Apart(t, s) ==> t.Covers(p) && Covered(spans, p);
  }

  lemma AddDisjoint(spans: SpanMap, id: int, s: Span)
    requires WellFormed(spans) && Disjoint(spans) && id !in spans
    requires s.length >= 1 && Vacant(spans, s.start, s.length)
    ensures Disjoint(spans[id := s])
  {
    var after := spans[id := s];
    forall a, b | a in after && b in after && a != b
      ensures Apart(after[a], after[b])
    {
      if a == id {
        VacantIsApart(spans, b, s);
      } else if b == id {
        VacantIsApart(spans, a, s);
      } else {
        assert Apart(spans[a], spans[b]);
      }
    }
  }

  lemma AddKeepsTags(spans: SpanMap, pages: PageMap, id: int, s: Span)
    requires BoundaryTags(spans, pages) && id !in spans
    requires s.start >= 1 && s.length >= 1 && s.sizeclass == 0
    requires Vacant(spans, s.start, s.length)
    ensures BoundaryTags(spans[id := s], pages[s.start := id][s.End() - 1 := id])
  {
    var after, pages' := spans[id := s], pages[s.start := id][s.End() - 1 := id];
    AddDisjoint(spans, id, s);
    AddCoverage(spans, id, s);
    forall p | p in pages'
      ensures Covered(after, p)
    {
      assert s.Covers(p) || Covered(spans, p);
    }
    forall b | b in spans
      ensures !spans[b].Covers(s.start) && !spans[b].Covers(s.End() - 1)
    {
      VacantIsApart(spans, b, s);
    }
  }

  // ----- changing what a span is, not where it is

  lemma RelabelKeepsTags(spans: SpanMap, pages: PageMap, id: int, s: Span)
    requires BoundaryTags(spans, pages) && id in spans
    requires s.start == spans[id].start && s.length == spans[id].length && s.sizeclass == 0
    ensures BoundaryTags(spans[id := s], pages)
  {
    RelabelDisjoint(spans, id, s);
    RelabelStrays(spans, pages, id, s);
  }

  lemma RelabelDisjoint(spans: SpanMap, id: int, s: Span)
    requires Disjoint(spans) && id in spans && s.start == spans[id].start && s.length == spans[id].length
    ensures Disjoint(spans[id := s])
  {
    var after := spans[id := s];
    forall a, b | a in after && b in after && a != b
      ensures Apart(after[a], after[b])
    {
      assert Apart(spans[a], spans[b]);
    }
  }

  lemma RelabelStrays(spans: SpanMap, pages: PageMap, id: int, s: Span)
    requires NoStrays(spans, pages) && id in spans && s.start == spans[id].start && s.length == spans[id].length
    ensures NoStrays(spans[id := s], pages)
  {
    RelabelCoverage(spans, id, s);
    forall p | p in pages
      ensures Covered(spans[id := s], p)
    {
      assert Covered(spans, p);
    }
  }

  lemma RelabelCoverage(spans: SpanMap, id: int, s: Span)
    requires id in spans && s.start == spans[id].start && s.length == spans[id].length
    ensures SameCoverage(spans, spans[id := s])
  {
    var after := spans[id := s];
    forall p
      ensures Covered(spans, p) <==> Covered(after, p)
    {
      if Covered(spans, p) {
        var b :| b in spans && spans[b].Covers(p);
        assert after[b].Covers(p);
      }
      if Covered(after, p) {
        var b :| b in after && after[b].Covers(p);
        assert spans[b].Covers(p);
      }
    }
  }

  lemma JoinUsed(spans: SpanMap, keep: int, gone: int)
    requires keep in spans && gone in spans && keep != gone
    requires spans[keep].location != InUse && spans[gone].location != InUse
    ensures Used(Join(spans, keep, gone)) == Used(spans)
  {
  }

  ghost predicate Within(a: Span, b: Span) {
    b.start <= a.start && a.End() <= b.End()
  }

  /** Every span of before is still there unchanged, or lies within span id of after; and there are no others. */
  ghost predicate MergedInto(before: SpanMap, after: SpanMap, id: int) {
    && id in after
    && (forall x :: x in before ==> (x in after && after[x] == before[x]) || Within(before[x], after[id]))
    && forall x :: x in after && x != id ==> x in before && after[x] == before[x]
  }

  lemma JoinMergedInto(spans: SpanMap, keep: int, gone: int)
    requires WellFormed(spans) && keep in spans && gone in spans && keep != gone
    requires Adjacent(spans[keep], spans[gone])
    ensures MergedInto(spans, Join(spans, keep, gone), keep)
  {
  }

  lemma MergedIntoTransitive(a: SpanMap, b: SpanMap, c: SpanMap, id: int)
    requires MergedInto(a, b, id) && MergedInto(b, c, id)
    ensures MergedInto(a, c, id)
  {
    assert Within(b[id], c[id]);
  }

  lemma SameCoverageTransitive(a: SpanMap, b: SpanMap, c: SpanMap)
    requires SameCoverage(a, b) && SameCoverage(b, c)
    ensures SameCoverage(a, c)
  {
    forall p
      ensures Covered(a, p) <==> Covered(c, p)
    {
      assert Covered(a, p) <==> Covered(b, p);
    }
  }

  // ----- coalescing

  /** Nothing could be merged into span id from below, or from above. */
  ghost predicate SealedBelow(spans: SpanMap, id: int)
    requires id in spans
  {
    forall a :: a in spans && spans[a].End() == spans[id].start ==>
      spans[a].location == InUse || spans[a].location != spans[id].location
  }

  ghost predicate SealedAbove(spans: SpanMap, id: int)
    requires id in spans
  {
    forall b :: b in spans && spans[id].End() == spans[b].start ==>
      spans[id].location == InUse || spans[id].location != spans[b].location
  }

  lemma SealedIsCoalesced(spans: SpanMap, id: int)
    requires id in spans && Coalesced(spans - {id}) && SealedBelow(spans, id) && SealedAbove(spans, id)
    ensures Coalesced(spans)
  {
    var others := spans - {id};
    forall a, b | a in spans && b in spans && spans[a].End() == spans[b].start
      ensures spans[a].location == InUse || spans[a].location != spans[b].location
    {
      if a != id && b != id {
        assert others[a].End() == others[b].start;
      }
    }
  }

  lemma SubsetCoalesced(spans: SpanMap, id: int)
    requires Coalesced(spans)
    ensures Coalesced(spans - {id})
  {
    var rest := spans - {id};
    forall a, b | a in rest && b in rest && rest[a].End() == rest[b].start
      ensures rest[a].location == InUse || rest[a].location != rest[b].location
    {
      assert spans[a].End() == spans[b].start;
    }
  }

  /** Merging the free neighbour below seals that side: its own lower neighbour could not be merged with it. */
  lemma JoinBelowSeals(spans: SpanMap, id: int, prev: int)
    requires WellFormed(spans) && Disjoint(spans) && Coalesced(spans - {id})
    requires id in spans && prev in spans && prev != id
    requires spans[prev].End() == spans[id].start && spans[prev].location == spans[id].location != InUse
    ensures SealedBelow(Join(spans, id, prev), id)
  {
    var others, after := spans - {id}, Join(spans, id, prev);
    forall a | a in after && after[a].End() == after[id].start
      ensures after[a].location != after[id].location
    {
      assert a != id && others[a].End() == others[prev].start;
    }
  }

  lemma JoinAboveSeals(spans: SpanMap, id: int, next: int)
    requires WellFormed(spans) && Disjoint(spans) && Coalesced(spans - {id})
    requires id in spans && next in spans && next != id
    requires spans[next].start == spans[id].End() && spans[next].location == spans[id].location != InUse
    ensures SealedAbove(Join(spans, id, next), id)
    ensures SealedBelow(spans, id) ==> SealedBelow(Join(spans, id, next), id)
  {
    var others, after := spans - {id}, Join(spans, id, next);
    forall b | b in after && after[id].End() == after[b].start
      ensures after[b].location != after[id].location
    {
      assert b != id && others[next].End() == others[b].start;
    }
  }

  /** Reading the page map is enough to know that a side is sealed. */
  lemma NotMergeableBelow(spans: SpanMap, pages: PageMap, id: int)
    requires BoundaryTags(spans, pages) && id in spans
    requires var p := spans[id].start - 1;
             p in pages && pages[p] in spans ==> spans[pages[p]].location != spans[id].location
    ensures SealedBelow(spans, id)
  {
  }

  lemma NotMergeableAbove(spans: SpanMap, pages: PageMap, id: int)
    requires BoundaryTags(spans, pages) && id in spans
    requires var p := spans[id].End();
             p in pages && pages[p] in spans ==> spans[pages[p]].location != spans[id].location
    ensures SealedAbove(spans, id)
  {
  }

  /** Taking the first n pages of a free span leaves a rest that cannot be merged with anything: the part below
      it is now in use, and what follows it was not mergeable with the whole span. */
  lemma CarveKeepsCoalesced(spans: SpanMap, id: int, n: int, rest: int)
    requires WellFormed(spans) && Disjoint(spans) && Coalesced(spans)
    requires id in spans && rest !in spans && 0 < n < spans[id].length && spans[id].location != InUse
    ensures var after := Cut(spans, id, n, rest); Coalesced(after[id := after[id].(location := InUse)])
  {
    var cut := Cut(spans, id, n, rest);
    var after := cut[id := cut[id].(location := InUse)];
    forall a, b | a in after && b in after && after[a].End() == after[b].start
      ensures after[a].location == InUse || after[a].location != after[b].location
    {
      if a != id && b != id {
        var a0, b0 := if a == rest then id else a, if b == rest then id else b;
        assert a0 != b0 ==> Apart(spans[a0], spans[b0]);
        assert spans[a0].End() == spans[b0].start;
      }
    }
  }

  lemma RelabelInUseKeepsCoalesced(spans: SpanMap, id: int, s: Span)
    requires Coalesced(spans) && id in spans
    requires s.location == InUse && s.start == spans[id].start && s.length == spans[id].length
    ensures Coalesced(spans[id := s])
  {
    var after := spans[id := s];
    forall a, b | a in after && b in after && after[a].End() == after[b].start
      ensures after[a].location == InUse || after[a].location != after[b].location
    {
      assert spans[a].End() == spans[b].start;
    }
  }

  // ----- page totals

  function Weight(s: Span, l: Location): int { if s.location == l then s.length else 0 }

  /** Pages in the spans at location l. */
  ghost function PagesAt(spans: SpanMap, l: Location): int
    decreases |spans|
  {
    if spans.Keys == {} then 0
    else var id := Pick(spans); Weight(spans[id], l) + PagesAt(spans - {id}, l)
  }

  ghost function Pick(spans: SpanMap): (id: int)
    requires spans.Keys != {}
    ensures id in spans
  {
    SomeOrNone(spans);
    var id :| Has(spans, id); id
  }

  ghost predicate Has(spans: SpanMap, id: int) { id in spans }

  lemma SomeOrNone(spans: SpanMap)
    ensures spans.Keys == {} || exists id :: Has(spans, id)
  {
    if forall id :: !Has(spans, id) {
      forall id
        ensures id !in spans.Keys
      {
        assert !Has(spans, id);
      }
      assert spans.Keys == {};
    }
  }

  lemma {:induction false} PagesWithout(spans: SpanMap, l: Location, id: int)
    requires id in spans
    ensures PagesAt(spans, l) == Weight(spans[id], l) + PagesAt(spans - {id}, l)
    decreases |spans|
  {
    var k := Pick(spans);
    if k == id {
    } else {
      PagesWithout(spans - {k}, l, id);
      PagesWithout(spans - {id}, l, k);
      assert spans - {k} - {id} == spans - {id} - {k};
    }
  }

  lemma PagesWith(spans: SpanMap, l: Location, id: int, s: Span)
    ensures PagesAt(spans[id := s], l) == Weight(s, l) + PagesAt(spans - {id}, l)
  {
    PagesWithout(spans[id := s], l, id);
    assert spans[id := s] - {id} == spans - {id};
  }

  lemma {:induction false} PagesBounds(spans: SpanMap, l: Location)
    requires WellFormed(spans)
    ensures PagesAt(spans, l) >= 0
    ensures forall id :: id in spans && spans[id].location == l ==> spans[id].length <= PagesAt(spans, l)
    decreases |spans|
  {
    if spans.Keys == {} {
    } else {
      forall id | id in spans
        ensures PagesAt(spans, l) >= Weight(spans[id], l)
      {
        PagesBounds(spans - {id}, l);
        PagesWithout(spans, l, id);
      }
      assert Pick(spans) in spans;
    }
  }

  lemma {:induction false} PagesZero(spans: SpanMap, l: Location)
    requires forall id :: id in spans ==> spans[id].location != l
    ensures PagesAt(spans, l) == 0
    decreases |spans|
  {
    if spans.Keys == {} {
    } else {
      var id := Pick(spans);
      PagesZero(spans - {id}, l);
      PagesWithout(spans, l, id);
    }
  }

  lemma JoinPages(spans: SpanMap, keep: int, gone: int, l: Location)
    requires keep in spans && gone in spans && keep != gone && spans[keep].location == spans[gone].location
    ensures PagesAt(Join(spans, keep, gone), l) == PagesAt(spans, l)
  {
    var after := Join(spans, keep, gone);
    PagesWithout(spans, l, gone);
    PagesWithout(spans - {gone}, l, keep);
    PagesWith(spans - {gone}, l, keep, after[keep]);
  }

  lemma CutPagesAt(spans: SpanMap, id: int, n: int, rest: int, l: Location)
    requires id in spans && rest !in spans
    ensures PagesAt(Cut(spans, id, n, rest), l) == PagesAt(spans, l)
  {
    var s := spans[id];
    var mid := spans[rest := Span(s.start + n, s.length - n, s.location, 0)];
    PagesWith(mid, l, id, s.(length := n));
    PagesWithout(mid, l, id);
    PagesWithout(mid, l, rest);
    assert mid - {rest} == spans;
  }
}
