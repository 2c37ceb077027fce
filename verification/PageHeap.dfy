/** The page heap: allocation, splitting, merging and release of spans of pages. */
module PageHeaps {
  import opened Common
  import opened Spans
  import opened FreeLists

  /** A run of pages obtained from the system. */
  datatype Region = Region(start: int, pages: int)

  class PageHeap {
    const limit: int              // heap limit in pages, 0 for none
    const releaseRate: real       // how eagerly freed memory is returned, 0 for not at all
    const releases: nat -> bool   // whether the system's k-th answer to a release request is yes
    var spans: SpanMap
    var pagemap: PageMap
    var normal: Lists
    var returned: Lists
    var stats: Stats
    var taken: int                // pages taken from the system
    var releaseIndex: int
    var scavengeCounter: int
    var releaseCalls: nat
    ghost var leaked: int

    /** The invariant while the spans outside listed are on no list. */
    ghost predicate Consistent(listed: SpanMap)
      reads this
    {
      Kept(spans, pagemap, listed, normal, returned, stats, leaked) && 0 <= releaseIndex <= MAX_PAGES + 1
    }

    /** Between calls every free span is on its list, and the pages taken from the system cover those in the books. */
    ghost predicate Valid()
      reads this
    {
      Consistent(spans) && limit >= 0 && leaked >= 0 && taken * PAGE_SIZE >= stats.system
    }

    constructor (limit: int, releaseRate: real, releases: nat -> bool)
      requires limit >= 0
      ensures Valid() && spans == map[] && stats == Stats(0, 0, 0, 0) && taken == 0
      ensures releaseIndex == 128 && scavengeCounter == 0 && releaseCalls == 0
      ensures this.limit == limit && this.releaseRate == releaseRate && this.releases == releases
    {
      this.limit, this.releaseRate, this.releases := limit, releaseRate, releases;
      spans, pagemap := map[], map[];
      normal, returned := seq(MAX_PAGES + 1, _ => []), seq(MAX_PAGES + 1, _ => []);
      stats := Stats(0, 0, 0, 0);
      taken, releaseIndex, scavengeCounter, releaseCalls, leaked := 0, MAX_PAGES, 0, 0, 0;
      new;
      PagesZero(spans, InUse);
      PagesZero(spans, Normal);
      PagesZero(spans, Returned);
    }

    /** Put a span, which can be merged with nothing, at the front of its list. */
    method PrependToFreeList(id: int)
      requires id in spans && spans[id].location != InUse
      requires Consistent(spans - {id}) && Coalesced(spans)
      modifies this`normal, this`returned, this`stats
      ensures Consistent(spans)
      ensures stats == Credit(old(stats), spans[id].location, spans[id].length)
      ensures var i := ListIndex(spans[id].length);
              if spans[id].location == Normal
              then normal == old(normal)[i := [id] + old(normal[i])] && returned == old(returned)
              else returned == old(returned)[i := [id] + old(returned[i])] && normal == old(normal)
    {
      var s := spans[id];
      var i := ListIndex(s.length);
      BalancedLink(spans, id, stats, leaked);
      if s.location == Normal {
        LinkListed(spans, normal, Normal, id);
        ListedElsewhere(spans - {id}, spans, returned, Returned);
        stats := stats.(free := stats.free + PAGE_SIZE * s.length);
        normal := normal[i := [id] + normal[i]];
      } else {
        LinkListed(spans, returned, Returned, id);
        ListedElsewhere(spans - {id}, spans, normal, Normal);
        stats := stats.(unmapped := stats.unmapped + PAGE_SIZE * s.length);
        returned := returned[i := [id] + returned[i]];
      }
    }

    method RemoveFromFreeList(id: int, ghost listed: SpanMap)
      requires Consistent(listed) && id in listed && id in spans && listed[id] == spans[id]
      requires spans[id].location != InUse
      modifies this`normal, this`returned, this`stats
      ensures Consistent(listed - {id})
      ensures stats == Credit(old(stats), spans[id].location, -spans[id].length)
    {
      var s := spans[id];
      var i := ListIndex(s.length);
      BalancedUnlink(spans, listed, id, stats, leaked);
      SubsetCoalesced(listed, id);
      if s.location == Normal {
        UnlinkListed(listed, normal, Normal, id);
        ListedElsewhere(listed, listed - {id}, returned, Returned);
        stats := stats.(free := stats.free - PAGE_SIZE * s.length);
        normal := normal[i := Unlink(normal[i], id)];
      } else {
        UnlinkListed(listed, returned, Returned, id);
        ListedElsewhere(listed, listed - {id}, normal, Normal);
        stats := stats.(unmapped := stats.unmapped - PAGE_SIZE * s.length);
        returned := returned[i := Unlink(returned[i], id)];
      }
    }

    /** Take an adjacent span of the same location off its list and into span id: its descriptor is deleted and
        only the page map entry of the boundary that moves is written. */
    method Absorb(id: int, gone: int)
      requires id in spans && gone in spans && id != gone && Consistent(spans - {id})
      requires Adjacent(spans[id], spans[gone]) && spans[gone].location == spans[id].location != InUse
      modifies this`spans, this`pagemap, this`normal, this`returned, this`stats
      ensures spans == Join(old(spans), id, gone) && Consistent(spans - {id})
      ensures stats == Credit(old(stats), old(spans[gone].location), -old(spans[gone].length))
    {
      JoinKeepsTags(spans, pagemap, id, gone);
      RemoveFromFreeList(gone, spans - {id});
      BalancedJoin(spans, id, gone, stats, leaked);
      assert Join(spans, id, gone) - {id} == spans - {id} - {gone};
      Extend(id, gone);
    }

    /** The span takes over the pages of its neighbour, whose descriptor is deleted. */
    method Extend(id: int, gone: int)
      requires id in spans && gone in spans && id != gone && Adjacent(spans[id], spans[gone])
      requires spans[id].length >= 1 && spans[gone].length >= 1
      modifies this`spans, this`pagemap
      ensures spans == Join(old(spans), id, gone)
      ensures pagemap == old(pagemap)[MovedEdge(old(spans), id, gone) := id]
    {
      var s, g := spans[id], spans[gone];
      if g.start < s.start {
        s := s.(start := s.start - g.length, length := s.length + g.length);
        pagemap := pagemap[s.start := id];
      } else {
        s := s.(length := s.length + g.length);
        pagemap := pagemap[s.End() - 1 := id];
      }
      spans := (spans - {gone})[id := s];
    }

    /** The first block of MergeIntoFreeList: merge the span below, if it may be merged. */
    method MergePrevious(id: int)
      requires id in spans && spans[id].location != InUse && Consistent(spans - {id})
      modifies this`spans, this`pagemap, this`normal, this`returned, this`stats
      ensures id in spans && Consistent(spans - {id}) && SealedBelow(spans, id)
      ensures spans[id].End() == old(spans[id].End()) && spans[id].location == old(spans[id].location)
      ensures spans[id].length >= old(spans[id].length)
      ensures Used(spans) == Used(old(spans)) && SameCoverage(old(spans), spans) && MergedInto(old(spans), spans, id)
      ensures Credit(stats, spans[id].location, spans[id].length) ==
              Credit(old(stats), spans[id].location, old(spans[id].length))
    {
      NeighbourBefore(spans, pagemap, id);
      var p := spans[id].start;
      if p - 1 in pagemap && spans[pagemap[p - 1]].location == spans[id].location {
        var prev := pagemap[p - 1];
        JoinCoverage(spans, id, prev);
        JoinUsed(spans, id, prev);
        JoinMergedInto(spans, id, prev);
        JoinBelowSeals(spans, id, prev);
        Absorb(id, prev);
      } else {
        NotMergeableBelow(spans, pagemap, id);
      }
    }

    /** The second block: likewise for the span above. */
    method MergeNext(id: int)
      requires id in spans && spans[id].location != InUse && Consistent(spans - {id}) && SealedBelow(spans, id)
      modifies this`spans, this`pagemap, this`normal, this`returned, this`stats
      ensures id in spans && Consistent(spans - {id}) && SealedBelow(spans, id) && SealedAbove(spans, id)
      ensures spans[id].start == old(spans[id].start) && spans[id].location == old(spans[id].location)
      ensures spans[id].length >= old(spans[id].length)
      ensures Used(spans) == Used(old(spans)) && SameCoverage(old(spans), spans) && MergedInto(old(spans), spans, id)
      ensures Credit(stats, spans[id].location, spans[id].length) ==
              Credit(old(stats), spans[id].location, old(spans[id].length))
    {
      NeighbourAfter(spans, pagemap, id);
      var q := spans[id].End();
      if q in pagemap && spans[pagemap[q]].location == spans[id].location {
        var next := pagemap[q];
        JoinCoverage(spans, id, next);
        JoinUsed(spans, id, next);
        JoinMergedInto(spans, id, next);
        JoinAboveSeals(spans, id, next);
        Absorb(id, next);
      } else {
        NotMergeableAbove(spans, pagemap, id);
      }
    }

    /** Merge a free span, which is on no list yet, with its neighbours and put the result on its list. */
    method MergeIntoFreeList(id: int)
      requires id in spans && spans[id].location != InUse && Consistent(spans - {id})
      modifies this`spans, this`pagemap, this`normal, this`returned, this`stats
      ensures Consistent(spans)
      ensures id in spans && spans[id].location == old(spans[id].location)
      ensures Used(spans) == Used(old(spans)) && SameCoverage(old(spans), spans) && MergedInto(old(spans), spans, id)
      ensures stats == Credit(old(stats), spans[id].location, old(spans[id].length))
    {
      MergePrevious(id);
      ghost var mid := spans;
      MergeNext(id);
      SameCoverageTransitive(old(spans), mid, spans);
      MergedIntoTransitive(old(spans), mid, spans, id);
      SealedIsCoalesced(spans, id);
      PrependToFreeList(id);
    }

    /** An identifier for a new descriptor: any one that names no span, perhaps one used before. */
    method NewDescriptor() returns (id: int)
      ensures id !in spans
    {
      id := 1;
      ghost var seen := {};
      while id in spans
        invariant forall j :: j in seen ==> j < id
        decreases spans.Keys - seen
      {
        seen := seen + {id};
        id := id + 1;
      }
    }

    /** The stats after n pages are taken from a span at the given location. */
    static function Carved(st: Stats, l: Location, n: int): Stats {
      var st' := Credit(st, l, -n);
      if l == Returned then st'.(committed := st'.committed + PAGE_SIZE * n) else st'
    }

    /** Take the first n pages of a free span. What is left of it goes back on the free lists unmerged. */
    method Carve(id: int, n: int)
      requires Valid() && id in spans && spans[id].location != InUse && 1 <= n <= spans[id].length
      modifies this`spans, this`pagemap, this`normal, this`returned, this`stats
      ensures Valid()
      ensures id in spans && spans[id] == Span(old(spans[id].start), n, InUse, 0)
      ensures Used(spans) == Used(old(spans))[id := spans[id]] && SameCoverage(old(spans), spans)
      ensures stats == Carved(old(stats), old(spans[id].location), n) && CarvedFrom(old(spans), spans, id, n)
    {
      RemoveFromFreeList(id, spans);
      if spans[id].length == n {
        CommitWhole(id);
      } else {
        CommitPart(id, n);
      }
    }

    method CommitWhole(id: int)
      requires id in spans && spans[id].location != InUse && Consistent(spans - {id}) && Coalesced(spans)
      modifies this`spans, this`stats
      ensures Consistent(spans) && spans == old(spans)[id := old(spans[id]).(location := InUse)]
      ensures Used(spans) == Used(old(spans))[id := spans[id]] && SameCoverage(old(spans), spans)
      ensures stats == old(stats).(committed := old(stats.committed)
                       + if old(spans[id].location) == Returned then PAGE_SIZE * spans[id].length else 0)
    {
      var s := spans[id];
      BalancedCommit(spans, spans - {id}, id, stats, leaked);
      TakeWhole(spans, pagemap, normal, returned, id);
      spans := spans[id := s.(location := InUse)];
      if s.location == Returned {
        stats := stats.(committed := stats.committed + PAGE_SIZE * s.length);
      }
    }

    method CommitPart(id: int, n: int)
      requires id in spans && spans[id].location != InUse && Consistent(spans - {id}) && Coalesced(spans)
      requires 1 <= n < spans[id].length
      modifies this`spans, this`pagemap, this`normal, this`returned, this`stats
      ensures Consistent(spans) && CarvedFrom(old(spans), spans, id, n)
      ensures Used(spans) == Used(old(spans))[id := spans[id]] && SameCoverage(old(spans), spans)
      ensures stats == Credit(old(stats), old(spans[id].location), old(spans[id].length) - n).(
                         committed := old(stats.committed)
                           + if old(spans[id].location) == Returned then PAGE_SIZE * n else 0)
    {
      var rest := CutOff(id, n);
      PrependToFreeList(rest);
    }

    /** Put the first n pages of an unlisted free span in use; what is left is a free span on no list. */
    method CutOff(id: int, n: int) returns (rest: int)
      requires id in spans && spans[id].location != InUse && Consistent(spans - {id}) && Coalesced(spans)
      requires 1 <= n < spans[id].length
      modifies this`spans, this`pagemap, this`stats
      ensures rest !in old(spans) && spans == Taken(old(spans), id, n, rest)
      ensures Consistent(spans - {rest}) && Coalesced(spans)
      ensures Used(spans) == Used(old(spans))[id := spans[id]] && SameCoverage(old(spans), spans)
      ensures stats == old(stats).(committed := old(stats.committed)
                                     + if old(spans[id].location) == Returned then PAGE_SIZE * n else 0)
    {
      var s := spans[id];
      rest := NewDescriptor();
      var after, tags := Taken(spans, id, n, rest), CutPages(pagemap, s, n, id, rest);
      var bytes := if s.location == Returned then PAGE_SIZE * n else 0;
      var books := stats.(committed := stats.committed + bytes);
      PartKept(spans, pagemap, normal, returned, id, n, rest, stats, leaked, after, tags, books);
      spans, pagemap, stats := after, tags, books;
      assert Kept(spans, pagemap, spans - {rest}, normal, returned, stats, leaked);
    }

    /** Cut a span in use in two; the second part is a span in use of its own. */
    method Split(id: int, n: int) returns (rest: int)
      requires Valid() && id in spans && spans[id].location == InUse && spans[id].sizeclass == 0
      requires 0 < n < spans[id].length
      modifies this`spans, this`pagemap
      ensures Valid() && rest !in old(spans) && SameCoverage(old(spans), spans)
      ensures spans == Cut(old(spans), id, n, rest)
      ensures Used(spans) == Cut(Used(old(spans)), id, n, rest)
    {
      var s := spans[id];
      rest := NewDescriptor();
      CutKeepsTags(spans, pagemap, id, n, rest);
      CutCoverage(spans, id, n, rest);
      CutInUse(spans, normal, returned, id, n, rest, stats, leaked);
      spans := Cut(spans, id, n, rest);
      pagemap := CutPages(pagemap, s, n, id, rest);
    }

    /** Mark a span in use as holding objects of class sc, and name it in the page map at every page. */
    method RegisterSizeClass(id: int, sc: int)
      requires Valid() && id in spans && spans[id].location == InUse && spans[id].sizeclass == 0 && sc > 0
      modifies this`spans, this`pagemap
      ensures Valid() && spans == old(spans)[id := old(spans[id]).(sizeclass := sc)]
      ensures Used(spans) == Used(old(spans))[id := spans[id]] && SameCoverage(old(spans), spans)
      ensures forall p :: p in pagemap && !spans[id].Covers(p) ==> p in old(pagemap) && pagemap[p] == old(pagemap[p])
      ensures forall p :: p in old(pagemap) ==> p in pagemap
    {
      var s' := spans[id].(sizeclass := sc);
      ghost var pages := pagemap;
      pagemap := NameInterior(pagemap, id, s');
      RegisteredTags(spans, pages, pagemap, id, s');
      RelabelCoverage(spans, id, s');
      RegisteredBooks(spans, normal, returned, id, s', stats, leaked);
      spans := spans[id := s'];
    }

    /** The pages of an unlisted normal span have been given back to the system. */
    method Unmap(id: int)
      requires id in spans && spans[id].location == Normal && Consistent(spans - {id}) && Coalesced(spans)
      modifies this`spans, this`stats
      ensures spans == old(spans)[id := old(spans[id]).(location := Returned)] && Consistent(spans - {id})
      ensures stats == old(stats).(committed := old(stats.committed) - PAGE_SIZE * old(spans[id].length))
      ensures Used(spans) == Used(old(spans)) && SameCoverage(old(spans), spans)
    {
      var s := spans[id].(location := Returned);
      UsedRelabel(spans, id, s);
      RelabelKeepsTags(spans, pagemap, id, s);
      RelabelCoverage(spans, id, s);
      BalancedRelabel(spans, id, s);
      assert spans[id := s] - {id} == spans - {id};
      spans := spans[id := s];
      stats := stats.(committed := stats.committed - PAGE_SIZE * s.length);
    }

    /** Return the last span of a normal list to the system; 0 if the system refuses. */
    method ReleaseLastNormalSpan(i: int) returns (n: int)
      requires Valid() && 0 <= i <= MAX_PAGES && normal[i] != []
      modifies this`spans, this`pagemap, this`normal, this`returned, this`stats, this`releaseCalls
      ensures Valid() && releaseCalls == old(releaseCalls) + 1
      ensures ReleasedOnly(old(spans), spans)
      ensures var last := old(normal[i])[|old(normal[i])| - 1];
              && last in old(spans) && old(spans)[last].location == Normal && old(spans)[last].length >= 1
              && n == if releases(old(releaseCalls)) then old(spans)[last].length else 0
      ensures stats == ReleasedStats(old(stats), n)
      ensures n == 0 ==>
                spans == old(spans) && pagemap == old(pagemap) && normal == old(normal) && returned == old(returned)
    {
      var id := normal[i][|normal[i]| - 1];
      assert OnList(spans, id, Normal, i) by { assert id in normal[i]; }
      var ok := releases(releaseCalls);
      releaseCalls := releaseCalls + 1;
      if !ok {
        return 0;
      }
      n := GiveBack(id);
    }

    /** Move a normal span to the returned lists. */
    method GiveBack(id: int) returns (n: int)
      requires Valid() && id in spans && spans[id].location == Normal
      modifies this`spans, this`pagemap, this`normal, this`returned, this`stats
      ensures Valid() && ReleasedOnly(old(spans), spans)
      ensures n == old(spans[id].length) && stats == ReleasedStats(old(stats), n)
    {
      n := Withdraw(id);
      MergeReturned(id, old(spans));
    }

    /** Merge the span that was given back with its returned neighbours. */
    method MergeReturned(id: int, ghost before: SpanMap)
      requires id in before && before[id].location == Normal && spans == before[id := before[id].(location := Returned)]
      requires Consistent(spans - {id}) && Used(spans) == Used(before) && SameCoverage(before, spans)
      modifies this`spans, this`pagemap, this`normal, this`returned, this`stats
      ensures Consistent(spans) && ReleasedOnly(before, spans)
      ensures stats == Credit(old(stats), Returned, before[id].length)
    {
      ghost var mid := spans;
      MergeIntoFreeList(id);
      GivenBack(before, mid, spans, id);
    }

    /** Take a normal span off its list and mark it as given back. */
    method Withdraw(id: int) returns (n: int)
      requires Valid() && id in spans && spans[id].location == Normal
      modifies this`spans, this`normal, this`returned, this`stats
      ensures spans == old(spans)[id := old(spans[id]).(location := Returned)] && Consistent(spans - {id})
      ensures n == old(spans[id].length) && Credit(stats, Returned, n) == ReleasedStats(old(stats), n)
      ensures Used(spans) == Used(old(spans)) && SameCoverage(old(spans), spans)
    {
      n := spans[id].length;
      RemoveFromFreeList(id, spans);
      Unmap(id);
    }

    /** One step of the inner loop of ReleaseAtLeastNPages: visit the next list. */
    method ReleaseFromNextList() returns (n: int, refused: bool)
      requires Valid()
      modifies this`spans, this`pagemap, this`normal, this`returned, this`stats, this`releaseCalls, this`releaseIndex
      ensures Valid() && ReleasedOnly(old(spans), spans)
      ensures n >= 0 && stats == ReleasedStats(old(stats), n) && (n > 0 ==> NormalOf(old(spans), n))
      ensures releaseCalls >= old(releaseCalls)
      ensures refused ==> n == 0 && releaseCalls > old(releaseCalls) && !releases(releaseCalls - 1)
      ensures !refused ==> Wrap(releaseIndex) == (Wrap(old(releaseIndex)) + 1) % (MAX_PAGES + 1)
      ensures !refused && n == 0 ==> normal == old(normal) && normal[Wrap(old(releaseIndex))] == []
    {
      n, refused := 0, false;
      if releaseIndex > MAX_PAGES {
        releaseIndex := 0;
      }
      if normal[releaseIndex] != [] {
        n := ReleaseLastNormalSpan(releaseIndex);
        if n == 0 {
          refused := true;
          return;
        }
      }
      releaseIndex := releaseIndex + 1;
    }

    /** One round over all the lists, starting where the last one ended. */
    method ReleaseRound(numPages: int, already: int) returns (released: int, refused: bool)
      requires Valid() && stats.free > 0 && 0 <= already < numPages
      modifies this`spans, this`pagemap, this`normal, this`returned, this`stats, this`releaseCalls, this`releaseIndex
      ensures Valid() && ReleasedOnly(old(spans), spans)
      ensures stats == ReleasedStats(old(stats), released - already)
      ensures releaseCalls >= old(releaseCalls)
      ensures refused ==> releaseCalls > old(releaseCalls) && !releases(releaseCalls - 1)
      ensures released >= already && (!refused ==> released > already)
      ensures released > already ==> NotTooMany(old(spans), released, numPages)
    {
      released, refused := already, false;
      ghost var start := Wrap(releaseIndex);
      var i := 0;
      while i < MAX_PAGES + 1 && released < numPages
        invariant 0 <= i <= MAX_PAGES + 1 && Valid() && releaseCalls >= old(releaseCalls)
        invariant RoundSoFar(old(spans), old(stats), spans, stats, normal, releaseIndex, start, i, already, released)
        invariant released > already ==> NotTooMany(old(spans), released, numPages)
      {
        released, refused := ReleaseStep(released, already, numPages, old(spans), old(stats), start, i);
        if refused {
          return;
        }
        i := i + 1;
      }
      if released == already {
        EmptyRound(spans, normal, stats, leaked, start);
      }
    }

    /** One step of a round. */
    method ReleaseStep(released: int, ghost already: int, ghost numPages: int, ghost spans0: SpanMap,
                       ghost stats0: Stats, ghost start: int, ghost i: int)
      returns (more: int, refused: bool)
      requires Valid() && 0 <= i <= MAX_PAGES
      requires RoundSoFar(spans0, stats0, spans, stats, normal, releaseIndex, start, i, already, released)
      requires 0 <= released < numPages && (released > already ==> NotTooMany(spans0, released, numPages))
      modifies this`spans, this`pagemap, this`normal, this`returned, this`stats, this`releaseCalls, this`releaseIndex
      ensures Valid() && releaseCalls >= old(releaseCalls) && more >= released
      ensures ReleasedOnly(spans0, spans) && stats == ReleasedStats(stats0, more - already)
      ensures more > already ==> NotTooMany(spans0, more, numPages)
      ensures !refused ==> RoundSoFar(spans0, stats0, spans, stats, normal, releaseIndex, start, i + 1, already, more)
      ensures refused ==> releaseCalls > old(releaseCalls) && !releases(releaseCalls - 1)
    {
      var n;
      n, refused := ReleaseFromNextList();
      more := released + n;
      if n > 0 {
        LastReleased(spans0, old(spans), released, n, numPages);
      }
      ReleasedOnlyTransitive(spans0, old(spans), spans);
      if !refused {
        RoundAdvances(spans0, stats0, old(spans), old(stats), old(normal), old(releaseIndex), start, i, already,
                      released, spans, stats, normal, releaseIndex, n);
      }
    }

    /** Return spans to the system round robin until numPages pages are released or nothing more can be; not a span more
        than that takes. */
    method ReleaseAtLeastNPages(numPages: int) returns (released: int)
      requires Valid()
      modifies this`spans, this`pagemap, this`normal, this`returned, this`stats, this`releaseCalls, this`releaseIndex
      ensures Valid() && ReleasedOnly(old(spans), spans)
      ensures released >= 0 && stats == ReleasedStats(old(stats), released)
      ensures releaseCalls >= old(releaseCalls)
      ensures released >= numPages || stats.free == 0
              || (releaseCalls > old(releaseCalls) && !releases(releaseCalls - 1))
      ensures (numPages <= 0 ==> released == 0) && (released > 0 ==> NotTooMany(old(spans), released, numPages))
    {
      released := 0;
      FreeBytesIffListed(spans, normal, stats, leaked);
      while released < numPages && stats.free > 0
        invariant Valid() && ReleasedOnly(old(spans), spans)
        invariant released >= 0 && stats == ReleasedStats(old(stats), released) && stats.free >= 0
        invariant releaseCalls >= old(releaseCalls)
        invariant (numPages <= 0 ==> released == 0) && (released > 0 ==> NotTooMany(old(spans), released, numPages))
        decreases stats.free
      {
        var refused;
        ghost var before := spans;
        released, refused := ReleaseRound(numPages, released);
        ReleasedOnlyTransitive(old(spans), before, spans);
        FreeBytesIffListed(spans, normal, stats, leaked);
        if refused {
          return;
        }
      }
    }

    /** Called when n pages are freed: now and then, return a page or more to the system. */
    method IncrementalScavenge(n: int) returns (released: int)
      requires Valid()
      modifies this`spans, this`pagemap, this`normal, this`returned, this`stats, this`releaseCalls, this`releaseIndex
      modifies this`scavengeCounter
      ensures Valid() && ReleasedOnly(old(spans), spans)
      ensures released >= 0 && stats == ReleasedStats(old(stats), released)
      ensures releaseCalls >= old(releaseCalls) && (released > 0 ==> NormalOf(old(spans), released))
      ensures old(scavengeCounter) >= n || releaseRate <= 0.000001 ==> released == 0 && spans == old(spans)
      ensures old(scavengeCounter) >= n ==> scavengeCounter == old(scavengeCounter) - n
      ensures old(scavengeCounter) < n && released == 0 ==>
                && scavengeCounter == 262144
                && (releaseRate <= 0.000001 || old(stats.free) == 0
                    || (releaseCalls > old(releaseCalls) && !releases(releaseCalls - 1)))
      ensures old(scavengeCounter) < n && released > 0 ==>
                IsDelay(scavengeCounter as real, releaseRate, 1000.0 * released as real)
    {
      released := 0;
      scavengeCounter := scavengeCounter - n;
      if scavengeCounter >= 0 {
        return;
      }
      if releaseRate <= 0.000001 {
        scavengeCounter := DEFAULT_RELEASE_DELAY;
        return;
      }
      released := ReleaseAtLeastNPages(1);
      if released == 0 {
        scavengeCounter := DEFAULT_RELEASE_DELAY;
      } else {
        OneSpan(old(spans), released);
        scavengeCounter := Delay(releaseRate, released);
      }
    }

    /** Give back a span in use. */
    method Delete(id: int)
      requires Valid() && id in spans && spans[id].location == InUse
      modifies this`spans, this`pagemap, this`normal, this`returned, this`stats, this`releaseCalls, this`releaseIndex
      modifies this`scavengeCounter
      ensures Valid() && Used(spans) == Used(old(spans)) - {id} && SameCoverage(old(spans), spans)
      ensures HasFree(spans, old(spans[id].length)) && FitsAsBefore(old(spans), spans)
      ensures stats.system == old(stats.system)
      ensures stats.free + stats.unmapped == old(stats.free + stats.unmapped) + PAGE_SIZE * old(spans[id].length)
      ensures stats.unmapped >= old(stats.unmapped) && releaseCalls >= old(releaseCalls)
      ensures old(scavengeCounter) >= old(spans[id].length) || releaseRate <= 0.000001 ==>
                FreedInto(old(spans), spans, id) && stats.unmapped == old(stats.unmapped)
    {
      var n := spans[id].length;
      FreeSpan(id);
      ghost var merged := spans;
      var _ := IncrementalScavenge(n);
      SameCoverageTransitive(old(spans), merged, spans);
    }

    /** Make a span in use a normal free one. */
    method FreeSpan(id: int)
      requires Valid() && id in spans && spans[id].location == InUse
      modifies this`spans, this`pagemap, this`normal, this`returned, this`stats
      ensures Valid() && Used(spans) == Used(old(spans)) - {id} && SameCoverage(old(spans), spans)
      ensures HasFree(spans, old(spans[id].length)) && FitsAsBefore(old(spans), spans)
      ensures FreedInto(old(spans), spans, id) && stats == Credit(old(stats), Normal, old(spans[id].length))
    {
      var s := Span(spans[id].start, spans[id].length, Normal, 0);
      Freed(spans, pagemap, normal, returned, id, s, stats, leaked);
      spans := spans[id := s];
      ghost var mid := spans;
      MergeIntoFreeList(id);
      FreedFits(old(spans), mid, spans, id);
      SameCoverageTransitive(old(spans), mid, spans);
    }

    /** May n more pages be taken, going by the current stats? */
    ghost predicate WithinLimit(n: int)
      reads this
    {
      limit == 0 || taken - stats.unmapped / PAGE_SIZE + n <= limit
    }

    ghost predicate Untouched(spans0: SpanMap, pagemap0: PageMap, normal0: Lists, returned0: Lists, stats0: Stats)
      reads this
    {
      spans == spans0 && pagemap == pagemap0 && normal == normal0 && returned == returned0 && stats == stats0
    }

    /** Check the heap limit, releasing free spans if that can help. The answer agrees with recomputing it from
        the new stats; it is no only if nothing is left to release or the system refused. The pages that are unmapped
        were taken before. */
    method EnsureLimit(n: int, withRelease: bool) returns (ok: bool)
      requires Valid()
      modifies this`spans, this`pagemap, this`normal, this`returned, this`stats, this`releaseCalls, this`releaseIndex
      ensures Valid() && ReleasedOnly(old(spans), spans)
      ensures ok <==> WithinLimit(n)
      ensures old(WithinLimit(n)) || !withRelease ==>
                && Untouched(old(spans), old(pagemap), old(normal), old(returned), old(stats))
                && releaseCalls == old(releaseCalls)
      ensures !ok && withRelease ==>
                stats.free == 0 || (releaseCalls > old(releaseCalls) && !releases(releaseCalls - 1))
      ensures stats.system == old(stats.system) && stats.free + stats.unmapped == old(stats.free + stats.unmapped)
      ensures stats.unmapped >= old(stats.unmapped) && releaseCalls >= old(releaseCalls)
      ensures old(stats.unmapped) / PAGE_SIZE <= taken
      ensures stats.unmapped > old(stats.unmapped) ==>
                && limit > 0
                && NotTooMany(old(spans), stats.unmapped / PAGE_SIZE - old(stats.unmapped) / PAGE_SIZE,
                              taken - old(stats.unmapped) / PAGE_SIZE + n - limit)
      ensures withRelease && Accepted(old(releaseCalls)) ==> (ok <==> !old(Overcommitted(n)))
    {
      UnmappedIsTaken(spans, stats, leaked, taken);
      FreeBytesNonNegative(spans, stats, leaked);
      if limit == 0 {
        return true;
      }
      var takenPages := taken - stats.unmapped / PAGE_SIZE;
      if takenPages + n > limit && withRelease {
        var released := ReleaseAtLeastNPages(takenPages + n - limit);
        takenPages := takenPages - released;
        FreeBytesNonNegative(spans, stats, leaked);
      }
      return takenPages + n <= limit;
    }

    /** The system accepted every release since the given call. */
    ghost predicate Accepted(from: nat)
      reads this
    {
      forall k :: from <= k < releaseCalls ==> releases(k)
    }

    /** The heap would exceed its limit by n more pages even if everything free were given back. */
    ghost predicate Overcommitted(n: int)
      reads this
    {
      limit > 0 && taken - (stats.free + stats.unmapped) / PAGE_SIZE + n > limit
    }

    /** Best fit among the large spans. held says whether the assertion that no normal span was found holds where
        the method gives up. As long as the system accepts releases, it fails exactly when a normal span is at hand,
        the best fit is a returned one, and the limit would be exceeded even with everything free given back. */
    method AllocLarge(n: int) returns (r: Option<int>, ghost held: bool)
      requires Valid() && n >= 1
      modifies this`spans, this`pagemap, this`normal, this`returned, this`stats, this`releaseCalls, this`releaseIndex
      ensures Valid() && stats.system == old(stats.system)
      ensures r.None? ==> ReleasedOnly(old(spans), spans)
      ensures r.Some? ==> Allocated(old(spans), spans, r.value, n)
      ensures old(WithinLimit(n)) ==>
                && (r.Some? ==> BestLarge(old(spans), n, r.value))
                && (r.None? ==> !HasFree(old(spans), Larger(n)) && spans == old(spans))
      ensures r.None? && HasNormal(old(spans), Larger(n)) ==>
                !old(WithinLimit(0)) || (releaseCalls > old(releaseCalls) && !releases(releaseCalls - 1))
      ensures held <==> r.Some? || !HasNormal(old(spans), Larger(n))
      ensures Accepted(old(releaseCalls)) && BestIsReturned(old(spans), n) ==> (r.None? <==> old(Overcommitted(n)))
      ensures Accepted(old(releaseCalls)) ==>
                (!held <==> HasNormal(old(spans), Larger(n)) && BestIsReturned(old(spans), n) && old(Overcommitted(n)))
      ensures old(WithinLimit(0)) ==> WithinLimit(0)
      ensures HasFree(old(spans), Larger(n)) && !BestIsReturned(old(spans), n) ==>
                && r.Some? && BestLarge(old(spans), n, r.value) && CarvedFrom(old(spans), spans, r.value, n)
                && stats == Carved(old(stats), Normal, n)
      ensures !HasFree(old(spans), Larger(n)) ==>
                && r.None? && releaseCalls == old(releaseCalls)
                && Untouched(old(spans), old(pagemap), old(normal), old(returned), old(stats))
      ensures Accepted(old(releaseCalls)) && r.None? && HasFree(old(spans), Larger(n)) ==>
                stats.free == 0 && BestIsReturned(old(spans), n)
      ensures r.None? ==> stats.free + stats.unmapped == old(stats.free + stats.unmapped)
      ensures releaseCalls >= old(releaseCalls)
      decreases if WithinLimit(n) then 0 else 1, 1
    {
      var bestNormal, best := FindBestLarge(spans, normal, returned, n);
      if best == bestNormal {
        if best.None? {
          return None, true;
        }
        NormalIsBest(spans, n, best.value);
        Carve(best.value, n);
        return best, true;
      }
      r := AllocReturned(best.value, n);
      held := r.Some? || bestNormal.None?;
    }

    /** The second half of AllocLarge: the best fit is a returned span, which may only be taken within the limit.
        After a release it may have been merged away, so the search starts again. */
    method AllocReturned(best: int, n: int) returns (r: Option<int>)
      requires Valid() && n >= 1 && BestLarge(spans, n, best) && spans[best].location == Returned
      modifies this`spans, this`pagemap, this`normal, this`returned, this`stats, this`releaseCalls, this`releaseIndex
      ensures Valid() && stats.system == old(stats.system)
      ensures r.None? ==> ReleasedOnly(old(spans), spans)
      ensures r.Some? ==> Allocated(old(spans), spans, r.value, n)
      ensures old(WithinLimit(n)) ==> r == Some(best)
      ensures r.None? && HasNormal(old(spans), Larger(n)) ==>
                !old(WithinLimit(0)) || (releaseCalls > old(releaseCalls) && !releases(releaseCalls - 1))
      ensures Accepted(old(releaseCalls)) ==> (r.None? <==> old(Overcommitted(n)))
      ensures old(WithinLimit(0)) ==> WithinLimit(0)
      ensures Accepted(old(releaseCalls)) && r.None? ==> stats.free == 0
      ensures r.None? ==> stats.free + stats.unmapped == old(stats.free + stats.unmapped)
      ensures releaseCalls >= old(releaseCalls)
      decreases if WithinLimit(n) then 0 else 1, 0
    {
      FreeBytesNonNegative(spans, stats, leaked);
      var ok := EnsureLimit(n, false);
      if ok {
        Carve(best, n);
        return Some(best);
      }
      ok := EnsureLimit(n, true);
      FreeBytesNonNegative(spans, stats, leaked);
      if ok {
        ghost var mid := spans;
        ghost var held;
        r, held := AllocLarge(n);
        AfterRelease(old(spans), mid, spans, r, n);
        return;
      }
      PagesBounds(old(spans), Normal);
      return None;
    }

    /** Look for a free span of n pages or more, in the exact-size lists and then among the large spans. As long as
        the system accepts releases, there is none to be had exactly if nothing fits, or the limit would be exceeded
        even with everything free given back and the best fit is not a normal span. */
    method SearchFreeAndLargeLists(n: int) returns (r: Option<int>)
      requires Valid() && n >= 1
      modifies this`spans, this`pagemap, this`normal, this`returned, this`stats, this`releaseCalls, this`releaseIndex
      ensures Valid() && stats.system == old(stats.system)
      ensures r.None? ==> ReleasedOnly(old(spans), spans)
      ensures r.Some? ==> Allocated(old(spans), spans, r.value, n)
      ensures limit == 0 ==>
                && (r.Some? ==> BestFit(old(spans), n, r.value))
                && (r.None? ==> !HasFree(old(spans), n) && spans == old(spans))
      ensures old(WithinLimit(0)) ==> WithinLimit(0)
      ensures releaseCalls >= old(releaseCalls)
      ensures !HasFree(old(spans), n) ==>
                r.None? && releaseCalls == old(releaseCalls) && spans == old(spans) && stats == old(stats)
      ensures Accepted(old(releaseCalls)) ==>
                (r.Some? <==> HasFree(old(spans), n) && (!old(Overcommitted(n)) || BestIsNormal(old(spans), n)))
      ensures Accepted(old(releaseCalls)) && r.None? && HasFree(old(spans), n) ==> stats.free == 0
      ensures r.None? ==> stats.free + stats.unmapped == old(stats.free + stats.unmapped)
    {
      var s := n;
      while s < MAX_PAGES
        invariant n <= s <= Larger(n) && Valid() && (old(WithinLimit(0)) ==> WithinLimit(0))
        invariant SearchAt(n, s, old(spans), old(stats), old(releaseCalls))
      {
        r := VisitList(n, s, old(spans), old(stats), old(releaseCalls));
        if r.Some? {
          return;
        }
        s := s + 1;
      }
      r := SearchLarge(n, old(spans), old(stats), old(releaseCalls));
    }

    /** The search began with these spans and has come to list s: nothing fits so far and nothing has changed, or a
        returned span was the best fit. */
    ghost predicate SearchAt(n: int, s: int, spans0: SpanMap, stats0: Stats, calls0: nat)
      reads this
    {
      && ReleasedOnly(spans0, spans) && releaseCalls >= calls0
      && stats.system == stats0.system && stats.free + stats.unmapped == stats0.free + stats0.unmapped
      && (|| (spans == spans0 && stats == stats0 && releaseCalls == calls0 && NoneFreeBetween(spans0, n, s))
          || (limit > 0 && Tried(spans0, spans, n, s, stats.free, Accepted(calls0), Overcommitted(n))))
    }

    /** Span id has been taken in a search that began with these spans. */
    ghost predicate Found(n: int, id: int, spans0: SpanMap, calls0: nat, over: bool)
      reads this
    {
      && Allocated(spans0, spans, id, n) && HasFree(spans0, n) && releaseCalls >= calls0
      && (limit == 0 ==> BestFit(spans0, n, id))
      && (Accepted(calls0) ==> !over || BestIsNormal(spans0, n))
    }

    /** One round of the search. */
    method VisitList(n: int, s: int, ghost spans0: SpanMap, ghost stats0: Stats, ghost calls0: nat)
      returns (r: Option<int>)
      requires Valid() && 1 <= n <= s < MAX_PAGES && SearchAt(n, s, spans0, stats0, calls0)
      modifies this`spans, this`pagemap, this`normal, this`returned, this`stats, this`releaseCalls, this`releaseIndex
      ensures Valid() && stats.system == old(stats.system) && (old(WithinLimit(0)) ==> WithinLimit(0))
      ensures r.None? ==> SearchAt(n, s + 1, spans0, stats0, calls0)
      ensures r.Some? ==> Found(n, r.value, spans0, calls0, old(Overcommitted(n)))
    {
      if normal[s] != [] {
        ListHead(spans, normal, Normal, s);
        NormalFound(spans0, spans, normal, stats, leaked, n, s);
        r := TakeFirst(normal[s][0], n, s, spans0);
        return;
      }
      if returned[s] != [] {
        var ok := MakeRoom(n, s, spans0, stats0, calls0);
        if ok && returned[s] != [] {
          ListHead(spans, returned, Returned, s);
          r := TakeFirst(returned[s][0], n, s, spans0);
          return;
        }
        return None;
      }
      NoneFreeOneMore(spans, normal, returned, n, s);
      return None;
    }

    /** There is a returned span on list s, which may only be taken within the limit. A release for that may merge
        it into a longer one, and then the search goes on. */
    method MakeRoom(n: int, s: int, ghost spans0: SpanMap, ghost stats0: Stats, ghost calls0: nat) returns (ok: bool)
      requires Valid() && 1 <= n <= s < MAX_PAGES && SearchAt(n, s, spans0, stats0, calls0)
      requires normal[s] == [] && returned[s] != []
      modifies this`spans, this`pagemap, this`normal, this`returned, this`stats, this`releaseCalls, this`releaseIndex
      ensures Valid() && stats.system == old(stats.system) && stats.unmapped >= old(stats.unmapped)
      ensures ok ==> WithinLimit(n)
      ensures ReleasedOnly(spans0, spans) && releaseCalls >= calls0
      ensures ok && returned[s] != [] && Accepted(calls0) ==> !old(Overcommitted(n))
      ensures HasFree(spans0, n)
      ensures limit == 0 ==> ok && spans == spans0 && returned == old(returned) && NoneFreeBetween(spans, n, s)
      ensures !(ok && returned[s] != []) ==> SearchAt(n, s + 1, spans0, stats0, calls0)
    {
      ghost var before, normal0 := spans, normal;
      ReturnedFound(before, normal, returned, n, s);
      ok := EnsureLimit(n, true);
      StillNone(before, spans, normal0, normal, s);
      ReleasedOnlyTransitive(spans0, before, spans);
      NoneFreeOneMore(spans, normal, returned, n, s);
    }

    /** The end of the search. */
    method SearchLarge(n: int, ghost spans0: SpanMap, ghost stats0: Stats, ghost calls0: nat) returns (r: Option<int>)
      requires Valid() && 1 <= n && SearchAt(n, Larger(n), spans0, stats0, calls0)
      modifies this`spans, this`pagemap, this`normal, this`returned, this`stats, this`releaseCalls, this`releaseIndex
      ensures Valid() && stats.system == old(stats.system) && (old(WithinLimit(0)) ==> WithinLimit(0))
      ensures releaseCalls >= calls0
      ensures r.Some? ==> Found(n, r.value, spans0, calls0, old(Overcommitted(n)))
      ensures r.None? ==> ReleasedOnly(spans0, spans)
      ensures r.None? ==> stats.free + stats.unmapped == stats0.free + stats0.unmapped
      ensures !HasFree(spans0, n) ==> r.None? && releaseCalls == calls0 && spans == spans0 && stats == stats0
      ensures Accepted(calls0) && r.None? && HasFree(spans0, n) ==>
                stats.free == 0 && old(Overcommitted(n)) && !BestIsNormal(spans0, n)
      ensures limit == 0 && r.None? ==> !HasFree(spans0, n) && spans == spans0
    {
      ghost var mid, free, over := spans, stats.free, Overcommitted(n);
      ghost var held;
      NoNormals(mid, stats, leaked);
      LargeIsBest(mid, n, Larger(n));
      r, held := AllocLarge(n);
      AfterRelease(spans0, mid, spans, r, n);
      if HasFree(mid, Larger(n)) {
        LargeOutcome(spans0, mid, n, r, free, Accepted(calls0), over);
      }
    }

    /** Carve the first span of list s. */
    method TakeFirst(id: int, n: int, s: int, ghost before: SpanMap) returns (r: Option<int>)
      requires Valid() && 1 <= n <= s < MAX_PAGES && ReleasedOnly(before, spans)
      requires id in spans && spans[id].location != InUse && spans[id].length == s
      modifies this`spans, this`pagemap, this`normal, this`returned, this`stats
      ensures Valid() && stats.system == old(stats.system)
      ensures r == Some(id) && Allocated(before, spans, id, n)
      ensures NoneFreeBetween(old(spans), n, s) ==> BestFit(old(spans), n, id)
      ensures old(WithinLimit(if spans[id].location == Returned then n else 0)) ==> WithinLimit(0)
    {
      Carve(id, n);
      AfterRelease(before, old(spans), spans, Some(id), n);
      return Some(id);
    }

    /** Obtain at least n pages from the system, whose answers to the two possible requests are given, and put
        them on the free lists. mapped says whether the page map could be extended. */
    method GrowHeap(n: int, first: Option<Region>, second: Option<Region>, mapped: bool) returns (ok: bool)
      requires Valid() && n >= 1
      requires first.Some? ==> Deliverable(spans, first.value, Larger(n))
      requires second.Some? ==> Deliverable(spans, second.value, n)
      modifies this
      ensures Valid() && Used(spans) == Used(old(spans)) && FitsAsBefore(old(spans), spans)
      ensures ok ==> HasFree(spans, n) && stats.system > old(stats.system)
      ensures ok ==> exists r :: (Some(r) == first || Some(r) == second)
                                 && forall p :: Covered(spans, p) <==> Covered(old(spans), p) || InRegion(r, p)
      ensures !ok ==> SameCoverage(old(spans), spans)
      ensures limit == 0 && !ok ==>
                CannotGrow(n, first, second, mapped) && spans == old(spans) && releaseCalls == old(releaseCalls)
      ensures old(WithinLimit(0)) && Exact(n, first, second) ==> WithinLimit(0)
      ensures releaseCalls >= old(releaseCalls)
      ensures Accepted(old(releaseCalls)) ==>
                (ok <==> PAGE_SIZE * n < WORD && mapped && old(Obtainable(n, first, second)))
      ensures ok && Accepted(old(releaseCalls)) ==> !Overcommitted(n)
    {
      if n > MAX_VALID_PAGES {
        return false;
      }
      var got := AskSystem(n, first, second);
      if got.None? {
        return false;
      }
      ghost var mid := spans;
      ok := AddRegion(got.value, mapped);
      GrownFrom(old(spans), mid, spans, got.value, ok, n);
    }

    /** The system has what one of the two requests asks for, and the limit leaves room for it once everything free is
        given back. */
    ghost predicate Obtainable(n: int, first: Option<Region>, second: Option<Region>)
      reads this
    {
      || (first.Some? && !Overcommitted(Larger(n)))
      || (n < 128 && second.Some? && !Overcommitted(n))
    }

    /** The requests to the system: a generous amount first, then just n pages, each only if the limit allows. */
    method AskSystem(n: int, first: Option<Region>, second: Option<Region>) returns (got: Option<Region>)
      requires Valid() && n >= 1
      requires first.Some? ==> Deliverable(spans, first.value, Larger(n))
      requires second.Some? ==> Deliverable(spans, second.value, n)
      modifies this`spans, this`pagemap, this`normal, this`returned, this`stats, this`releaseCalls, this`releaseIndex
      ensures Valid() && ReleasedOnly(old(spans), spans) && stats.system == old(stats.system)
      ensures got.Some? ==> (got == first || got == second) && Deliverable(spans, got.value, n)
      ensures limit == 0 && got.None? ==> first.None? && (n < MAX_PAGES ==> second.None?)
      ensures got.Some? && Exact(n, first, second) ==> WithinLimit(got.value.pages)
      ensures old(WithinLimit(0)) ==> WithinLimit(0)
      ensures Accepted(old(releaseCalls)) ==> (got.Some? <==> old(Obtainable(n, first, second)))
      ensures releaseCalls >= old(releaseCalls)
      ensures limit == 0 ==> spans == old(spans) && releaseCalls == old(releaseCalls)
      ensures stats.free + stats.unmapped == old(stats.free + stats.unmapped)
    {
      got := AskFor(Larger(n), first);
      if got.None? && n < Larger(n) {
        ghost var mid := spans;
        got := AskFor(n, second);
        ReleasedOnlyTransitive(old(spans), mid, spans);
      }
      if got.Some? {
        StillDeliverable(old(spans), spans, got.value, n);
      }
    }

    /** Ask the system for so many pages, if the limit allows it; offer is its answer. */
    method AskFor(ask: int, offer: Option<Region>) returns (got: Option<Region>)
      requires Valid()
      modifies this`spans, this`pagemap, this`normal, this`returned, this`stats, this`releaseCalls, this`releaseIndex
      ensures Valid() && ReleasedOnly(old(spans), spans) && stats.system == old(stats.system)
      ensures got.Some? ==> got == offer && WithinLimit(ask)
      ensures old(WithinLimit(0)) ==> WithinLimit(0)
      ensures Accepted(old(releaseCalls)) ==> got == if old(Overcommitted(ask)) then None else offer
      ensures releaseCalls >= old(releaseCalls)
      ensures limit == 0 ==> got == offer && spans == old(spans) && releaseCalls == old(releaseCalls)
      ensures stats.free + stats.unmapped == old(stats.free + stats.unmapped)
    {
      got := None;
      var allowed := EnsureLimit(ask, true);
      if allowed {
        got := offer;
      }
    }

    /** Enter a new region in the books and, if the page map has room, in the free lists. */
    method AddRegion(r: Region, mapped: bool) returns (ok: bool)
      requires Valid() && r.pages >= 1 && Deliverable(spans, r, r.pages)
      modifies this
      ensures Valid() && Used(spans) == Used(old(spans)) && FitsAsBefore(old(spans), spans) && ok == mapped
      ensures stats.system == old(stats.system) + PAGE_SIZE * r.pages
      ensures ok ==> HasFree(spans, r.pages)
      ensures ok ==> forall p :: Covered(spans, p) <==> Covered(old(spans), p) || InRegion(r, p)
      ensures !ok ==> SameCoverage(old(spans), spans)
      ensures old(WithinLimit(r.pages)) ==> WithinLimit(0)
      ensures taken == old(taken) + r.pages && (releaseRate <= 0.000001 ==> stats.unmapped == old(stats.unmapped))
      ensures releaseCalls >= old(releaseCalls) && (!ok ==> spans == old(spans) && releaseCalls == old(releaseCalls))
      ensures ok ==> stats.free + stats.unmapped == old(stats.free + stats.unmapped) + PAGE_SIZE * r.pages
    {
      if !mapped {
        taken := taken + r.pages;
        stats := Grown(stats, r.pages);
        leaked := leaked + r.pages;
        return false;
      }
      FreeRegion(r);
      return true;
    }

    /** Enter a new region as a span in use and free it, so that it is merged with its neighbours. */
    method FreeRegion(r: Region)
      requires Valid() && r.pages >= 1 && Deliverable(spans, r, r.pages)
      modifies this
      ensures Valid() && Used(spans) == Used(old(spans)) && FitsAsBefore(old(spans), spans)
      ensures stats.system == old(stats.system) + PAGE_SIZE * r.pages && HasFree(spans, r.pages)
      ensures forall p :: Covered(spans, p) <==> Covered(old(spans), p) || InRegion(r, p)
      ensures taken == old(taken) + r.pages && stats.unmapped >= old(stats.unmapped)
      ensures stats.free + stats.unmapped == old(stats.free + stats.unmapped) + PAGE_SIZE * r.pages
      ensures releaseCalls >= old(releaseCalls)
      ensures releaseRate <= 0.000001 ==> stats.unmapped == old(stats.unmapped)
    {
      var id := RecordRegion(r);
      ghost var mid := spans;
      Delete(id);
      NewRegionCovered(old(spans), mid, spans, r);
      NewSpanFits(old(spans), id, mid[id], spans);
      AddedAndRemoved(old(spans), id, mid[id]);
    }

    /** Enter a new region as a span in use. */
    method RecordRegion(r: Region) returns (id: int)
      requires Valid() && r.pages >= 1 && Deliverable(spans, r, r.pages)
      modifies this`spans, this`pagemap, this`stats, this`taken
      ensures Valid() && id !in old(spans) && spans == old(spans)[id := Span(r.start, r.pages, InUse, 0)]
      ensures Used(spans) == Used(old(spans))[id := spans[id]] && stats == Grown(old(stats), r.pages)
      ensures taken == old(taken) + r.pages
      ensures forall p :: Covered(spans, p) <==> Covered(old(spans), p) || Span(r.start, r.pages, InUse, 0).Covers(p)
    {
      id := NewDescriptor();
      var s := Span(r.start, r.pages, InUse, 0);
      NewSpanKeeps(spans, pagemap, normal, returned, id, s);
      NewSpanBalanced(spans, id, s, stats, leaked);
      taken := taken + r.pages;
      stats := Grown(stats, r.pages);
      spans := spans[id := s];
      pagemap := pagemap[s.start := id][s.End() - 1 := id];
    }

    /** Is the heap about to grow by enough, with enough free pages, to return everything free first? */
    predicate ShouldCoalesce(n: int)
      reads this
    {
      && stats.free != 0 && stats.unmapped != 0
      && stats.free + stats.unmapped >= stats.system / 4
      && stats.system / FORCED_COALESCE_INTERVAL != (stats.system + PAGE_SIZE * n) % WORD / FORCED_COALESCE_INTERVAL
    }

    /** Search, and once more after returning all free spans so that they coalesce, if the heap is due for that. As
        long as the system accepts releases, that finds room exactly if a run of n pages is free. */
    method SearchWithCoalescing(n: int) returns (r: Option<int>)
      requires Valid() && n >= 1
      modifies this`spans, this`pagemap, this`normal, this`returned, this`stats, this`releaseCalls, this`releaseIndex
      ensures Valid() && stats.system == old(stats.system)
      ensures r.None? ==> ReleasedOnly(old(spans), spans)
      ensures r.Some? ==> Allocated(old(spans), spans, r.value, n)
      ensures limit == 0 && HasFree(old(spans), n) ==> r.Some? && BestFit(old(spans), n, r.value)
      ensures old(WithinLimit(0)) ==> WithinLimit(0)
      ensures releaseCalls >= old(releaseCalls)
      ensures r.None? ==> stats.free + stats.unmapped == old(stats.free + stats.unmapped)
      ensures !HasFree(old(spans), n) && !DueForCoalescing(old(stats), n) ==>
                r.None? && spans == old(spans) && stats == old(stats) && releaseCalls == old(releaseCalls)
      ensures Accepted(old(releaseCalls)) && old(stats.free) <= 0x7fffffff * PAGE_SIZE ==>
                (r.Some? <==> old(CanServe(n)))
    {
      r := SearchFreeAndLargeLists(n);
      DueIff(this, n);
      if r.None? && ShouldCoalesce(n) {
        r := SearchAgain(n, old(spans));
      }
    }

    /** Can n pages be served without growing, as long as the system accepts releases? */
    ghost predicate CanServe(n: int)
      reads this
    {
      if HasFree(spans, n) then !Overcommitted(n) || BestIsNormal(spans, n)
      else DueForCoalescing(stats, n) && FreeRun(spans, n) && !Overcommitted(n)
    }

    /** Return all free spans, so that runs of free pages become single spans, and search once more. */
    method SearchAgain(n: int, ghost spans0: SpanMap) returns (r: Option<int>)
      requires Valid() && n >= 1 && ReleasedOnly(spans0, spans)
      modifies this`spans, this`pagemap, this`normal, this`returned, this`stats, this`releaseCalls, this`releaseIndex
      ensures Valid() && stats.system == old(stats.system)
      ensures r.None? ==> ReleasedOnly(spans0, spans)
      ensures r.Some? ==> Allocated(spans0, spans, r.value, n)
      ensures old(WithinLimit(0)) ==> WithinLimit(0)
      ensures releaseCalls >= old(releaseCalls)
      ensures r.None? ==> stats.free + stats.unmapped == old(stats.free + stats.unmapped)
      ensures Accepted(old(releaseCalls)) && old(stats.free) <= 0x7fffffff * PAGE_SIZE ==>
                (r.Some? <==> FreeRun(old(spans), n) && !old(Overcommitted(n)))
      ensures limit == 0 && HasFree(old(spans), n) ==> r.Some?
    {
      ghost var first := spans;
      FreeBytesNonNegative(spans, stats, leaked);
      var _ := ReleaseAtLeastNPages(0x7fffffff);
      FreeBytesNonNegative(spans, stats, leaked);
      NoNormals(spans, stats, leaked);
      ReleasedOnlyTransitive(spans0, first, spans);
      ghost var second := spans;
      if stats.free == 0 {
        AllReturned(first, second, n);
      }
      r := SearchFreeAndLargeLists(n);
      AfterRelease(spans0, second, spans, r, n);
    }

    /** Allocate a span of n pages, growing the heap if nothing fits. With no limit set, the fit is a best fit and
        the only way to fail is that the heap could not grow. A limit that is kept stays kept, as long as the system
        delivers no more than it is asked for. */
    method New(n: int, first: Option<Region>, second: Option<Region>, mapped: bool) returns (r: Option<int>)
      requires Valid() && n >= 1
      requires first.Some? ==> Deliverable(spans, first.value, Larger(n))
      requires second.Some? ==> Deliverable(spans, second.value, n)
      modifies this
      ensures Valid()
      ensures r.None? ==> Used(spans) == Used(old(spans))
      ensures r.Some? ==> Handed(old(spans), spans, r.value, n)
      ensures limit == 0 && HasFree(old(spans), n) ==>
                r.Some? && BestFit(old(spans), n, r.value) && SameCoverage(old(spans), spans)
      ensures limit == 0 && r.None? ==> CannotGrow(n, first, second, mapped)
      ensures old(WithinLimit(0)) && Exact(n, first, second) ==> WithinLimit(0)
      ensures limit == 0 && r.None? && !DueForCoalescing(old(stats), n) ==>
                spans == old(spans) && releaseCalls == old(releaseCalls)
      ensures Accepted(old(releaseCalls)) && old(stats.free) <= 0x7fffffff * PAGE_SIZE ==>
                && (old(CanServe(n)) ==> r.Some? && SameCoverage(old(spans), spans))
                && (r.Some? <==> old(CanServe(n))
                                 || (PAGE_SIZE * n < WORD && mapped && old(Obtainable(n, first, second))))
    {
      r := SearchWithCoalescing(n);
      if r.Some? {
        return;
      }
      if first.Some? {
        StillDeliverable(old(spans), spans, first.value, Larger(n));
      }
      if second.Some? {
        StillDeliverable(old(spans), spans, second.value, n);
      }
      r := GrowAndSearch(n, first, second, mapped);
    }

    /** Grow the heap and take a span from what is there then. */
    method GrowAndSearch(n: int, first: Option<Region>, second: Option<Region>, mapped: bool) returns (r: Option<int>)
      requires Valid() && n >= 1
      requires first.Some? ==> Deliverable(spans, first.value, Larger(n))
      requires second.Some? ==> Deliverable(spans, second.value, n)
      modifies this
      ensures Valid() && releaseCalls >= old(releaseCalls)
      ensures r.None? ==> Used(spans) == Used(old(spans))
      ensures r.Some? ==> Handed(old(spans), spans, r.value, n)
      ensures limit == 0 && r.None? ==>
                CannotGrow(n, first, second, mapped) && spans == old(spans) && releaseCalls == old(releaseCalls)
      ensures old(WithinLimit(0)) && Exact(n, first, second) ==> WithinLimit(0)
      ensures Accepted(old(releaseCalls)) ==>
                (r.Some? <==> PAGE_SIZE * n < WORD && mapped && old(Obtainable(n, first, second)))
    {
      var grown := GrowHeap(n, first, second, mapped);
      if !grown {
        return None;
      }
      r := SearchFreeAndLargeLists(n);
    }
  }

  // ----- relations and lemmas used by the methods

  /** The invariant of the heap as a relation between its parts. */
  ghost predicate Kept(spans: SpanMap, pages: PageMap, listed: SpanMap, normal: Lists, returned: Lists, st: Stats,
                       leaked: int)
  {
    && BoundaryTags(spans, pages)
    && Coalesced(listed)
    && Listed(listed, normal, Normal)
    && Listed(listed, returned, Returned)
    && Balanced(spans, listed, st, leaked)
  }

  const FORCED_COALESCE_INTERVAL: int := 134217728   // 128 MiB

  /** There are normal and returned pages, together a quarter of the heap or more, and the heap is about to pass a
      multiple of 128 MiB, where the sum is taken in 64 bits. */
  ghost predicate DueForCoalescing(st: Stats, n: int) {
    var reached := (st.system + PAGE_SIZE * n) % WORD;
    && st.free > 0 && st.unmapped > 0 && 4 * (st.free + st.unmapped) >= st.system
    && exists k {:trigger MiB128(k)} :: st.system < MiB128(k) <= reached || reached < MiB128(k) <= st.system
  }

  function MiB128(k: int): int { k * 128 * 1024 * 1024 }

  /** A page that is free, whether returned or not. */
  ghost predicate FreePage(spans: SpanMap, p: int) {
    PageAt(spans, p, Normal) || PageAt(spans, p, Returned)
  }

  ghost predicate FreeFrom(spans: SpanMap, p: int, n: int) {
    forall q :: p <= q < p + n ==> FreePage(spans, q)
  }

  /** There are n consecutive free pages. */
  ghost predicate FreeRun(spans: SpanMap, n: int) {
    exists p :: FreeFrom(spans, p, n)
  }

  /** Releasing changes which free pages are returned, but not which pages are free. */
  lemma StillFree(before: SpanMap, after: SpanMap, p: int)
    requires Disjoint(before) && Disjoint(after) && Used(after) == Used(before) && SameCoverage(before, after)
    ensures FreePage(before, p) <==> FreePage(after, p)
  {
    if FreePage(before, p) {
      FreeElsewhere(before, after, p);
    }
    if FreePage(after, p) {
      FreeElsewhere(after, before, p);
    }
  }

  lemma FreeElsewhere(a: SpanMap, b: SpanMap, p: int)
    requires Disjoint(a) && Used(a) == Used(b) && SameCoverage(a, b) && FreePage(a, p)
    ensures FreePage(b, p)
  {
    var x :| x in a && a[x].Covers(p) && a[x].location != InUse;
    assert Covered(a, p);
    var y :| y in b && b[y].Covers(p);
    if b[y].location == InUse {
      assert y in Used(b) && Used(b)[y] == b[y] && y in Used(a);
      OnlyHolder(a, x, y, p);
    }
  }

  lemma OnlyHolder(spans: SpanMap, a: int, b: int, p: int)
    requires Disjoint(spans) && a in spans && b in spans && spans[a].Covers(p) && spans[b].Covers(p)
    ensures a == b
  {
    assert a != b ==> Apart(spans[a], spans[b]);
  }

  /** Once everything free is returned, a run of free pages is within one span. */
  lemma AllReturned(before: SpanMap, after: SpanMap, n: int)
    requires WellFormed(after) && Disjoint(before) && Disjoint(after) && Coalesced(after) && ReleasedOnly(before, after)
    requires n >= 1 && forall id :: id in after ==> after[id].location != Normal
    ensures HasFree(after, n) <==> FreeRun(before, n)
    ensures !BestIsNormal(after, n)
  {
    if FreeRun(before, n) {
      var p :| FreeFrom(before, p, n);
      forall q | p <= q <= p + n - 1
        ensures PageAt(after, q, Returned)
      {
        assert FreePage(before, q);
        StillFree(before, after, q);
      }
      var id := RunWithinOneSpan(after, Returned, p, p + n - 1);
      assert after[id].length >= n;
    }
    if HasFree(after, n) {
      var id :| id in after && after[id].location != InUse && after[id].length >= n;
      var p := after[id].start;
      forall q | p <= q < p + n
        ensures FreePage(before, q)
      {
        assert after[id].Covers(q);
        StillFree(before, after, q);
      }
      assert FreeFrom(before, p, n);
    }
  }

  lemma Quarter(a: int, pages: int)
    ensures a >= PAGE_SIZE * pages / 4 <==> 4 * a >= PAGE_SIZE * pages
  {
    assert PAGE_SIZE * pages == 4 * (2048 * pages);
  }

  /** Numbers in different intervals of 128 MiB have a multiple of it between them. */
  lemma MultipleBetween(x: int, y: int)
    ensures x / FORCED_COALESCE_INTERVAL < y / FORCED_COALESCE_INTERVAL <==> exists k :: x < MiB128(k) <= y
  {
    if x / FORCED_COALESCE_INTERVAL < y / FORCED_COALESCE_INTERVAL {
      var k := y / FORCED_COALESCE_INTERVAL;
      assert x < MiB128(k) <= y;
    }
    if k :| x < MiB128(k) <= y {
      assert x / FORCED_COALESCE_INTERVAL < k <= y / FORCED_COALESCE_INTERVAL;
    }
  }

  /** The test in the program says the same. */
  lemma DueIff(heap: PageHeap, n: int)
    requires heap.Valid() && n >= 1
    ensures heap.ShouldCoalesce(n) <==> DueForCoalescing(heap.stats, n)
  {
    FreeBytesNonNegative(heap.spans, heap.stats, heap.leaked);
    var x, y := heap.stats.system, (heap.stats.system + PAGE_SIZE * n) % WORD;
    Quarter(heap.stats.free + heap.stats.unmapped, heap.stats.system / PAGE_SIZE);
    MultipleBetween(x, y);
    MultipleBetween(y, x);
  }

  /** Span id is new among the spans in use, has n pages, and the others are as they were. */
  ghost predicate Handed(before: SpanMap, after: SpanMap, id: int, n: int) {
    && id in after && id !in Used(before)
    && after[id].location == InUse && after[id].length == n && after[id].sizeclass == 0
    && Used(after) == Used(before)[id := after[id]]
  }

  function Grown(st: Stats, pages: int): Stats {
    st.(system := st.system + PAGE_SIZE * pages, committed := st.committed + PAGE_SIZE * pages)
  }

  const MAX_VALID_PAGES: int := 0xFFFF_FFFF_FFFF_FFFF / PAGE_SIZE

  ghost predicate InRegion(r: Region, p: int) { r.start <= p < r.start + r.pages }

  /** What the system may deliver: at least as many pages as asked for, none of them in the heap already. */
  ghost predicate Deliverable(spans: SpanMap, r: Region, ask: int) {
    r.start >= 1 && r.pages >= ask && Vacant(spans, r.start, r.pages)
  }

  /** Why the heap could not grow: the request is too large, the page map has no room, or the system has nothing. */
  predicate CannotGrow(n: int, first: Option<Region>, second: Option<Region>, mapped: bool) {
    n > MAX_VALID_PAGES || !mapped || (first.None? && (n < MAX_PAGES ==> second.None?))
  }

  /** The system delivers just the pages asked for. */
  predicate Exact(n: int, first: Option<Region>, second: Option<Region>) {
    && (first.Some? ==> first.value.pages == Larger(n))
    && (second.Some? ==> second.value.pages == n)
  }

  lemma GrownFrom(before: SpanMap, mid: SpanMap, after: SpanMap, r: Region, ok: bool, n: int)
    requires ReleasedOnly(before, mid) && FitsAsBefore(mid, after) && r.pages >= n
    requires ok ==> HasFree(after, r.pages)
    requires ok ==> forall p :: Covered(after, p) <==> Covered(mid, p) || InRegion(r, p)
    requires !ok ==> SameCoverage(mid, after)
    ensures FitsAsBefore(before, after) && (ok ==> HasFree(after, n))
    ensures ok ==> forall p :: Covered(after, p) <==> Covered(before, p) || InRegion(r, p)
    ensures !ok ==> SameCoverage(before, after)
  {
    forall p
      ensures Covered(before, p) <==> Covered(mid, p)
    {
    }
  }

  lemma StillDeliverable(before: SpanMap, after: SpanMap, r: Region, ask: int)
    requires SameCoverage(before, after) && Deliverable(before, r, ask)
    ensures Deliverable(after, r, ask)
  {
    forall p | InRegion(r, p)
      ensures !Covered(after, p)
    {
      assert !Covered(before, p);
    }
  }

  lemma NewSpanBalanced(spans: SpanMap, id: int, s: Span, st: Stats, leaked: int)
    requires Balanced(spans, spans, st, leaked) && id !in spans && s.location == InUse
    ensures Balanced(spans[id := s], spans[id := s], Grown(st, s.length), leaked)
  {
    assert spans - {id} == spans;
    PagesWith(spans, InUse, id, s);
    PagesWith(spans, Normal, id, s);
    PagesWith(spans, Returned, id, s);
  }

  lemma NewRegionCovered(before: SpanMap, mid: SpanMap, after: SpanMap, r: Region)
    requires forall p :: Covered(mid, p) <==> Covered(before, p) || Span(r.start, r.pages, InUse, 0).Covers(p)
    requires SameCoverage(mid, after)
    ensures forall p :: Covered(after, p) <==> Covered(before, p) || InRegion(r, p)
  {
    forall p
      ensures Covered(after, p) <==> Covered(before, p) || InRegion(r, p)
    {
      assert Covered(mid, p) <==> Covered(after, p);
    }
  }

  lemma NewSpanFits(before: SpanMap, id: int, s: Span, after: SpanMap)
    requires id !in before && FitsAsBefore(before[id := s], after)
    ensures FitsAsBefore(before, after)
  {
    var mid := before[id := s];
    forall n | HasFree(before, n)
      ensures HasFree(after, n)
    {
      var x :| x in before && before[x].location != InUse && before[x].length >= n;
      assert x in mid && mid[x] == before[x];
      assert HasFree(mid, n);
    }
  }

  lemma AddedAndRemoved(spans: SpanMap, id: int, s: Span)
    requires id !in spans
    ensures Used(spans)[id := s] - {id} == Used(spans)
  {
    assert id !in Used(spans);
  }

  lemma NewSpanKeeps(spans: SpanMap, pages: PageMap, normal: Lists, returned: Lists, id: int, s: Span)
    requires BoundaryTags(spans, pages) && Coalesced(spans) && id !in spans
    requires s.start >= 1 && s.length >= 1 && s.sizeclass == 0 && s.location == InUse
    requires Vacant(spans, s.start, s.length)
    requires Listed(spans, normal, Normal) && Listed(spans, returned, Returned)
    ensures var after := spans[id := s];
            && BoundaryTags(after, pages[s.start := id][s.End() - 1 := id]) && Coalesced(after)
            && Listed(after, normal, Normal) && Listed(after, returned, Returned)
            && Used(after) == Used(spans)[id := s]
            && forall p :: Covered(after, p) <==> Covered(spans, p) || s.Covers(p)
  {
    var after := spans[id := s];
    AddKeepsTags(spans, pages, id, s);
    AddCoverage(spans, id, s);
    ListedElsewhere(spans, after, normal, Normal);
    ListedElsewhere(spans, after, returned, Returned);
    forall a, b | a in after && b in after && after[a].End() == after[b].start
      ensures after[a].location == InUse || after[a].location != after[b].location
    {
      assert a != id && b != id ==> spans[a].End() == spans[b].start;
    }
  }

  ghost predicate NoneFreeBetween(spans: SpanMap, lo: int, hi: int) {
    forall id :: id in spans && lo <= spans[id].length < hi ==> spans[id].location == InUse
  }

  /** Span id is a shortest free span of at least n pages; among large spans, the lowest of the shortest. */
  ghost predicate BestFit(spans: SpanMap, n: int, id: int) {
    && id in spans && spans[id].location != InUse && spans[id].length >= n
    && forall x :: x in spans && spans[x].location != InUse && spans[x].length >= n ==>
         spans[id].length <= spans[x].length && (spans[id].length >= MAX_PAGES ==> NoWorse(spans[id], spans[x]))
  }

  /** A best fit is a normal span. */
  ghost predicate BestIsNormal(spans: SpanMap, n: int) {
    exists id :: BestFit(spans, n, id) && spans[id].location == Normal
  }

  /** The search has met a returned span as the best fit and has come to list s all the same. */
  ghost predicate Tried(before: SpanMap, spans: SpanMap, n: int, s: int, free: int, accepted: bool, over: bool) {
    && HasFree(before, n) && !BestIsNormal(before, n)
    && (accepted && over ==> free == 0)
    && (accepted && !over ==> HasFree(spans, s))
  }

  /** A normal span on list s: it is a best fit if nothing fitted before, and there are free bytes. */
  lemma NormalFound(before: SpanMap, spans: SpanMap, normal: Lists, st: Stats, leaked: int, n: int, s: int)
    requires WellFormed(spans) && Listed(spans, normal, Normal) && Balanced(spans, spans, st, leaked)
    requires 1 <= n <= s < MAX_PAGES && normal[s] != []
    ensures st.free > 0 && HasFree(spans, n)
    ensures NoneFreeBetween(spans, n, s) ==> BestFit(spans, n, normal[s][0]) && BestIsNormal(spans, n)
  {
    ListHead(spans, normal, Normal, s);
    FreeBytesIffListed(spans, normal, st, leaked);
    var id := normal[s][0];
    assert spans[id].length >= n;
    if NoneFreeBetween(spans, n, s) {
      assert BestFit(spans, n, id);
    }
  }

  /** Only returned spans on list s: if nothing fitted before, no best fit is a normal span. */
  lemma ReturnedFound(spans: SpanMap, normal: Lists, returned: Lists, n: int, s: int)
    requires Listed(spans, normal, Normal) && Listed(spans, returned, Returned)
    requires 1 <= n <= s < MAX_PAGES && normal[s] == [] && returned[s] != []
    ensures HasFree(spans, s)
    ensures NoneFreeBetween(spans, n, s) ==> HasFree(spans, n) && !BestIsNormal(spans, n)
  {
    ListHead(spans, returned, Returned, s);
    var x := returned[s][0];
    assert spans[x].length >= s >= n;
    forall id | NoneFreeBetween(spans, n, s) && BestFit(spans, n, id)
      ensures spans[id].location != Normal
    {
      assert spans[id].length == s;
      assert !OnList(spans, id, Normal, s);
    }
  }

  lemma ListHead(spans: SpanMap, lists: Lists, l: Location, s: int)
    requires Listed(spans, lists, l) && 0 <= s < MAX_PAGES && lists[s] != []
    ensures var id := lists[s][0]; id in spans && spans[id].location == l && spans[id].length == s
  {
    assert lists[s][0] in lists[s];
    assert OnList(spans, lists[s][0], l, s);
  }

  lemma NoneFreeOneMore(spans: SpanMap, normal: Lists, returned: Lists, n: int, s: int)
    requires Listed(spans, normal, Normal) && Listed(spans, returned, Returned) && 0 <= s < MAX_PAGES
    ensures NoneFreeBetween(spans, n, s) && normal[s] == [] && returned[s] == [] ==> NoneFreeBetween(spans, n, s + 1)
    ensures HasFree(spans, s) && normal[s] == [] && returned[s] == [] ==> HasFree(spans, s + 1)
  {
    forall id | id in spans && spans[id].length == s && normal[s] == [] && returned[s] == []
      ensures spans[id].location == InUse
    {
      assert !OnList(spans, id, Normal, s) && !OnList(spans, id, Returned, s);
    }
  }

  /** No new normal span appears on a list when others are released. */
  lemma StillNone(before: SpanMap, after: SpanMap, normal: Lists, normal': Lists, s: int)
    requires ReleasedOnly(before, after) && Listed(before, normal, Normal) && Listed(after, normal', Normal)
    requires 0 <= s < MAX_PAGES && normal[s] == []
    ensures normal'[s] == []
  {
    if normal'[s] != [] {
      ListHead(after, normal', Normal, s);
      assert OnList(before, normal'[s][0], Normal, s);
    }
  }

  /** Where only large spans fit, the best fit is a normal span if and only if the best large span is one. */
  lemma LargeKind(spans: SpanMap, n: int, id: int)
    requires WellFormed(spans) && Disjoint(spans) && n >= 1 && NoneFreeBetween(spans, n, Larger(n))
    requires BestLarge(spans, n, id)
    ensures BestFit(spans, n, id) && (BestIsNormal(spans, n) <==> spans[id].location == Normal)
  {
    assert BestFit(spans, n, id);
    forall x | BestFit(spans, n, x)
      ensures x == id
    {
      assert spans[x].length >= Larger(n);
      assert x != id ==> Apart(spans[x], spans[id]);
    }
  }

  lemma LargeSettled(spans: SpanMap, n: int, r: Option<int>)
    requires WellFormed(spans) && Disjoint(spans) && n >= 1 && NoneFreeBetween(spans, n, Larger(n))
    requires BestIsReturned(spans, n) || (r.Some? && BestLarge(spans, n, r.value))
    ensures BestIsNormal(spans, n) <==> !BestIsReturned(spans, n)
  {
    if BestIsReturned(spans, n) {
      var id :| BestLarge(spans, n, id) && spans[id].location == Returned;
      LargeKind(spans, n, id);
    } else {
      LargeKind(spans, n, r.value);
    }
  }

  lemma NoNormals(spans: SpanMap, st: Stats, leaked: int)
    requires WellFormed(spans) && Balanced(spans, spans, st, leaked)
    ensures st.free == 0 ==> forall id :: id in spans ==> spans[id].location != Normal
  {
    PagesBounds(spans, Normal);
  }

  /** How the search among the large spans decides the whole search. */
  lemma LargeOutcome(before: SpanMap, spans: SpanMap, n: int, r: Option<int>, free: int, accepted: bool, over: bool)
    requires WellFormed(spans) && Disjoint(spans) && n >= 1 && HasFree(spans, Larger(n))
    requires free == 0 ==> forall id :: id in spans ==> spans[id].location != Normal
    requires (spans == before && NoneFreeBetween(before, n, Larger(n)))
             || Tried(before, spans, n, Larger(n), free, accepted, over)
    requires !BestIsReturned(spans, n) ==> r.Some? && BestLarge(spans, n, r.value)
    requires accepted && BestIsReturned(spans, n) ==> (r.None? <==> over)
    ensures accepted && r.Some? ==> !over || BestIsNormal(before, n)
    ensures accepted && r.None? ==> over && !BestIsNormal(before, n)
  {
    if spans == before && NoneFreeBetween(before, n, Larger(n)) {
      LargeSettled(spans, n, r);
    } else if !BestIsReturned(spans, n) {
      assert spans[r.value].location == Normal;
    }
  }

  lemma LargeIsBest(spans: SpanMap, n: int, s: int)
    requires n >= 1 && s == Larger(n)
    ensures NoneFreeBetween(spans, n, s) ==>
              && (forall id :: BestLarge(spans, n, id) ==> BestFit(spans, n, id))
              && (!HasFree(spans, Larger(n)) ==> !HasFree(spans, n))
  {
    if NoneFreeBetween(spans, n, s) && HasFree(spans, n) {
      var x :| x in spans && spans[x].location != InUse && spans[x].length >= n;
      assert spans[x].length >= Larger(n);
    }
  }

  function Larger(n: int): int { if n < MAX_PAGES then MAX_PAGES else n }

  /** Span id was free before and is now in use with n pages; the other spans in use are as they were. */
  ghost predicate Allocated(before: SpanMap, after: SpanMap, id: int, n: int) {
    Handed(before, after, id, n) && SameCoverage(before, after)
  }

  lemma AfterRelease(before: SpanMap, mid: SpanMap, after: SpanMap, r: Option<int>, n: int)
    requires ReleasedOnly(before, mid)
    ensures r.None? && ReleasedOnly(mid, after) ==> ReleasedOnly(before, after)
    ensures r.Some? && Allocated(mid, after, r.value, n) ==> Allocated(before, after, r.value, n)
  {
    if r.None? && ReleasedOnly(mid, after) {
      ReleasedOnlyTransitive(before, mid, after);
    }
    if r.Some? && Allocated(mid, after, r.value, n) {
      SameCoverageTransitive(before, mid, after);
    }
  }

  /** At most as long, and at the lower address if equally long. */
  ghost predicate NoWorse(a: Span, b: Span) {
    a.length < b.length || (a.length == b.length && a.start <= b.start)
  }

  /** Span id is the shortest free large span of at least n pages, and the lowest among those. */
  ghost predicate BestLarge(spans: SpanMap, n: int, id: int) {
    && id in spans && spans[id].location != InUse && spans[id].length >= Larger(n)
    && forall x :: x in spans && spans[x].location != InUse && spans[x].length >= Larger(n) ==>
         NoWorse(spans[id], spans[x])
  }

  /** The best large span is one that was given back to the system. */
  ghost predicate BestIsReturned(spans: SpanMap, n: int) {
    exists id :: BestLarge(spans, n, id) && spans[id].location == Returned
  }

  /** There is only one best large span. */
  lemma BestIsUnique(spans: SpanMap, n: int, a: int, b: int)
    requires WellFormed(spans) && Disjoint(spans) && BestLarge(spans, n, a) && BestLarge(spans, n, b)
    ensures a == b
  {
    assert a != b ==> Apart(spans[a], spans[b]);
  }

  /** The assertion of EnsureLimit: no more pages are unmapped than were taken. */
  lemma UnmappedIsTaken(spans: SpanMap, st: Stats, leaked: int, taken: int)
    requires WellFormed(spans) && Balanced(spans, spans, st, leaked) && leaked >= 0 && taken * PAGE_SIZE >= st.system
    ensures st.unmapped / PAGE_SIZE <= taken
  {
    PagesBounds(spans, InUse);
    PagesBounds(spans, Normal);
    PagesBounds(spans, Returned);
  }

  lemma FreeBytesNonNegative(spans: SpanMap, st: Stats, leaked: int)
    requires WellFormed(spans) && Balanced(spans, spans, st, leaked)
    ensures st.free >= 0 && st.unmapped >= 0
  {
    PagesBounds(spans, Normal);
    PagesBounds(spans, Returned);
  }

  ghost predicate IsLarge(spans: SpanMap, id: int, l: Location) {
    id in spans && spans[id].location == l && spans[id].length >= MAX_PAGES
  }

  lemma LargeListed(spans: SpanMap, lists: Lists, l: Location)
    requires Listed(spans, lists, l)
    ensures forall id :: id in lists[MAX_PAGES] <==> IsLarge(spans, id, l)
    ensures forall i :: 0 <= i < |lists[MAX_PAGES]| ==> lists[MAX_PAGES][i] in spans
  {
    forall i | 0 <= i < |lists[MAX_PAGES]|
      ensures lists[MAX_PAGES][i] in spans
    {
      var id := lists[MAX_PAGES][i];
      assert id in lists[MAX_PAGES];
      assert OnList(spans, id, l, MAX_PAGES);
    }
    forall id
      ensures id in lists[MAX_PAGES] <==> IsLarge(spans, id, l)
    {
      assert id in lists[MAX_PAGES] <==> OnList(spans, id, l, MAX_PAGES);
    }
  }

  /** One of the two loops of AllocLarge: the best span of a list, or of an earlier list. */
  method ScanLarge(spans: SpanMap, list: seq<int>, n: int, best0: Option<int>) returns (best: Option<int>)
    requires forall i :: 0 <= i < |list| ==> list[i] in spans
    requires best0.Some? ==> best0.value in spans && spans[best0.value].length >= n
    ensures best.None? ==> best0.None? && forall x :: x in list ==> spans[x].length < n
    ensures best.Some? ==> best.value in spans && spans[best.value].length >= n && (best == best0 || best.value in list)
    ensures best.Some? ==> forall x :: x in list && spans[x].length >= n ==> NoWorse(spans[best.value], spans[x])
    ensures best.Some? && best0.Some? ==> NoWorse(spans[best.value], spans[best0.value])
  {
    best := best0;
    var i := 0;
    while i < |list|
      invariant 0 <= i <= |list|
      invariant best.None? ==> best0.None? && forall x :: x in list[..i] ==> spans[x].length < n
      invariant best.Some? ==>
                  best.value in spans && spans[best.value].length >= n && (best == best0 || best.value in list)
      invariant best.Some? ==>
                  forall x :: x in list[..i] && spans[x].length >= n ==> NoWorse(spans[best.value], spans[x])
      invariant best.Some? && best0.Some? ==> NoWorse(spans[best.value], spans[best0.value])
    {
      var s := spans[list[i]];
      if s.length >= n {
        if best.None? || s.length < spans[best.value].length
           || (s.length == spans[best.value].length && s.start < spans[best.value].start)
        {
          best := Some(list[i]);
        }
      }
      assert list[..i + 1] == list[..i] + [list[i]];
      i := i + 1;
    }
    assert list[..i] == list;
  }

  /** Both loops of AllocLarge: the returned list is searched for something better than the normal list has. */
  method FindBestLarge(spans: SpanMap, normal: Lists, returned: Lists, n: int)
    returns (bestNormal: Option<int>, best: Option<int>)
    requires Listed(spans, normal, Normal) && Listed(spans, returned, Returned)
    ensures best.Some? ==> BestLarge(spans, n, best.value)
    ensures best.None? ==> bestNormal.None? && !HasFree(spans, Larger(n))
    ensures bestNormal.Some? <==> HasNormal(spans, Larger(n))
    ensures best.Some? && best == bestNormal ==> spans[best.value].location == Normal
    ensures best != bestNormal ==> best.Some? && spans[best.value].location == Returned
  {
    LargeListed(spans, normal, Normal);
    LargeListed(spans, returned, Returned);
    bestNormal := ScanLarge(spans, normal[MAX_PAGES], n, None);
    best := ScanLarge(spans, returned[MAX_PAGES], n, bestNormal);
    forall x | x in spans && spans[x].location != InUse && spans[x].length >= Larger(n)
      ensures best.Some? && NoWorse(spans[best.value], spans[x])
    {
      assert IsLarge(spans, x, spans[x].location);
    }
    if best.Some? {
      assert IsLarge(spans, best.value, Normal) || IsLarge(spans, best.value, Returned);
    }
    NormalOnList(spans, normal, n);
    if bestNormal.Some? {
      assert IsLarge(spans, bestNormal.value, Normal);
    }
  }

  lemma NormalOnList(spans: SpanMap, normal: Lists, n: int)
    requires Listed(spans, normal, Normal)
    ensures HasNormal(spans, Larger(n)) ==> exists x :: x in normal[MAX_PAGES] && x in spans && spans[x].length >= n
  {
    LargeListed(spans, normal, Normal);
    if HasNormal(spans, Larger(n)) {
      var x :| x in spans && spans[x].location == Normal && spans[x].length >= Larger(n);
      assert IsLarge(spans, x, Normal);
    }
  }

  lemma NormalIsBest(spans: SpanMap, n: int, id: int)
    requires WellFormed(spans) && Disjoint(spans) && BestLarge(spans, n, id) && spans[id].location == Normal
    ensures !BestIsReturned(spans, n)
  {
    forall b | BestLarge(spans, n, b)
      ensures spans[b].location == Normal
    {
      BestIsUnique(spans, n, id, b);
    }
  }

  const DEFAULT_RELEASE_DELAY: int := 262144   // 1 << 18 pages
  const MAX_RELEASE_DELAY: int := 1048576      // 1 << 20 pages

  /** Pages to be freed before the next release: 1000 for each page just released, divided by the rate and rounded down,
      at most 2^20. */
  ghost predicate IsDelay(delay: real, rate: real, pages: real) {
    if pages > 1048576.0 * rate then delay == 1048576.0 else delay * rate <= pages < delay * rate + rate
  }

  method Delay(rate: real, released: int) returns (delay: int)
    requires rate > 0.000001
    ensures IsDelay(delay as real, rate, 1000.0 * released as real)
  {
    var mult := 1000.0 / rate;
    var wait := mult * released as real;
    delay := if wait > MAX_RELEASE_DELAY as real then MAX_RELEASE_DELAY else wait.Floor;
    WaitTimesRate(mult, rate, released as real);
    DelayIs(wait, rate, delay as real);
    SamePages(delay as real, rate, wait * rate, 1000.0 * released as real);
  }

  lemma DelayIs(wait: real, rate: real, delay: real)
    requires rate > 0.0 && if wait > 1048576.0 then delay == 1048576.0 else delay <= wait < delay + 1.0
    ensures IsDelay(delay, rate, wait * rate)
  {
    if wait > 1048576.0 {
      Scale(1048576.0, wait, rate);
    } else {
      ScaleUp(wait, 1048576.0, rate);
      Between(delay, wait, rate);
    }
  }

  lemma SamePages(delay: real, rate: real, x: real, y: real)
    requires x == y && IsDelay(delay, rate, x)
    ensures IsDelay(delay, rate, y)
  {
  }

  lemma Scale(a: real, b: real, c: real)
    requires a < b && c > 0.0
    ensures a * c < b * c
  {
    assert (b - a) * c > 0.0;
  }

  lemma Between(a: real, b: real, c: real)
    requires a <= b < a + 1.0 && c > 0.0
    ensures a * c <= b * c < a * c + c
  {
    var d := b - a;
    Scale(d, 1.0, c);
    ScaleUp(a, b, c);
    Spread(b, a, c);
  }

  lemma Spread(a: real, b: real, c: real)
    ensures (a - b) * c == a * c - b * c
  {
  }

  lemma ScaleUp(a: real, b: real, c: real)
    requires a <= b && c > 0.0
    ensures a * c <= b * c
  {
    if a < b {
      Scale(a, b, c);
    }
  }

  lemma WaitTimesRate(mult: real, rate: real, released: real)
    requires rate > 0.0 && mult == 1000.0 / rate
    ensures (mult * released) * rate == 1000.0 * released
  {
    assert mult * rate == 1000.0;
    Reorder(mult, released, rate);
  }

  lemma Reorder(a: real, b: real, c: real)
    ensures (a * b) * c == (a * c) * b
  {
  }

  /** A span in use becomes a normal free span that is on no list yet. */
  lemma Freed(spans: SpanMap, pages: PageMap, normal: Lists, returned: Lists, id: int, s: Span, st: Stats, leaked: int)
    requires BoundaryTags(spans, pages) && Coalesced(spans) && id in spans && spans[id].location == InUse
    requires s == Span(spans[id].start, spans[id].length, Normal, 0)
    requires Listed(spans, normal, Normal) && Listed(spans, returned, Returned) && Balanced(spans, spans, st, leaked)
    ensures var after := spans[id := s];
            && BoundaryTags(after, pages) && Coalesced(after - {id}) && SameCoverage(spans, after)
            && Listed(after - {id}, normal, Normal) && Listed(after - {id}, returned, Returned)
            && Balanced(after, after - {id}, st, leaked)
            && Used(after) == Used(spans) - {id}
  {
    var after := spans[id := s];
    assert after - {id} == spans - {id};
    UsedFreed(spans, id, s);
    RelabelKeepsTags(spans, pages, id, s);
    RelabelCoverage(spans, id, s);
    SubsetCoalesced(spans, id);
    ListedElsewhere(spans, spans - {id}, normal, Normal);
    ListedElsewhere(spans, spans - {id}, returned, Returned);
    BalancedRelabel(spans, id, s);
    PagesWithout(spans, Normal, id);
    PagesWithout(spans, Returned, id);
  }

  /** Span id is free and may have grown over its free neighbours; no other span changed. */
  ghost predicate FreedInto(before: SpanMap, after: SpanMap, id: int) {
    && id in before && id in after && after[id].location == Normal
    && MergedInto(before[id := Span(before[id].start, before[id].length, Normal, 0)], after, id)
  }

  lemma FreedFits(before: SpanMap, mid: SpanMap, after: SpanMap, id: int)
    requires id in before && before[id].location == InUse
    requires mid == before[id := Span(before[id].start, before[id].length, Normal, 0)]
    requires MergedInto(mid, after, id) && after[id].location == Normal
    ensures FitsAsBefore(before, after) && HasFree(after, before[id].length)
  {
    assert Within(mid[id], after[id]);
    forall n | HasFree(before, n)
      ensures HasFree(after, n)
    {
      var x :| x in before && before[x].location != InUse && before[x].length >= n;
      assert (x in after && after[x] == mid[x]) || Within(mid[x], after[id]);
    }
  }

  function ReleasedStats(st: Stats, n: int): Stats {
    st.(free := st.free - PAGE_SIZE * n, unmapped := st.unmapped + PAGE_SIZE * n,
        committed := st.committed - PAGE_SIZE * n)
  }

  /** There is a normal span of exactly n pages. */
  ghost predicate NormalOf(spans: SpanMap, n: int) {
    exists id :: id in spans && spans[id].location == Normal && spans[id].length == n
  }

  /** Without some one of the normal spans, the released pages would not have been enough. */
  ghost predicate NotTooMany(spans: SpanMap, released: int, wanted: int) {
    exists id :: id in spans && spans[id].location == Normal && 0 <= released - spans[id].length < wanted
  }

  lemma LastReleased(spans0: SpanMap, spans: SpanMap, released: int, n: int, wanted: int)
    requires ReleasedOnly(spans0, spans) && NormalOf(spans, n) && 0 <= released < wanted
    ensures NotTooMany(spans0, released + n, wanted)
  {
    var id :| id in spans && spans[id].location == Normal && spans[id].length == n;
    assert spans0[id] == spans[id];
  }

  lemma OneSpan(spans: SpanMap, released: int)
    requires NotTooMany(spans, released, 1)
    ensures NormalOf(spans, released)
  {
  }

  /** Is there a free span of at least n pages? */
  ghost predicate HasFree(spans: SpanMap, n: int) {
    exists id :: id in spans && spans[id].location != InUse && spans[id].length >= n
  }

  ghost predicate HasNormal(spans: SpanMap, n: int) {
    exists id :: id in spans && spans[id].location == Normal && spans[id].length >= n
  }

  ghost predicate FitsAsBefore(before: SpanMap, after: SpanMap) {
    forall n :: HasFree(before, n) ==> HasFree(after, n)
  }

  lemma MergeFits(before: SpanMap, mid: SpanMap, after: SpanMap, id: int)
    requires id in before && before[id].location != InUse
    requires mid == before[id := before[id].(location := Returned)]
    requires MergedInto(mid, after, id) && after[id].location != InUse
    ensures FitsAsBefore(before, after)
  {
    forall n | HasFree(before, n)
      ensures HasFree(after, n)
    {
      var x :| x in before && before[x].location != InUse && before[x].length >= n;
      assert (x in after && after[x] == mid[x]) || Within(mid[x], after[id]);
    }
  }

  lemma GivenBack(before: SpanMap, mid: SpanMap, after: SpanMap, id: int)
    requires id in before && before[id].location == Normal && mid == before[id := before[id].(location := Returned)]
    requires Used(mid) == Used(before) && SameCoverage(before, mid)
    requires Used(after) == Used(mid) && SameCoverage(mid, after)
    requires MergedInto(mid, after, id) && after[id].location == Returned
    ensures ReleasedOnly(before, after)
  {
    SameCoverageTransitive(before, mid, after);
    MergeFits(before, mid, after, id);
  }

  /** Releasing changes nothing for the spans in use, moves no boundary of the heap and loses no room; the normal spans
      that are left are as they were. */
  ghost predicate ReleasedOnly(before: SpanMap, after: SpanMap) {
    && Used(after) == Used(before) && SameCoverage(before, after) && FitsAsBefore(before, after)
    && forall id :: id in after && after[id].location == Normal ==> id in before && before[id] == after[id]
  }

  lemma ReleasedOnlyTransitive(a: SpanMap, b: SpanMap, c: SpanMap)
    requires ReleasedOnly(a, b) && ReleasedOnly(b, c)
    ensures ReleasedOnly(a, c)
  {
    SameCoverageTransitive(a, b, c);
  }

  function Wrap(index: int): int { if index > MAX_PAGES then 0 else index }

  lemma NextList(index: int, start: int, i: int)
    requires 0 <= start && 0 <= i && Wrap(index) == (start + i) % (MAX_PAGES + 1)
    ensures (Wrap(index) + 1) % (MAX_PAGES + 1) == (start + (i + 1)) % (MAX_PAGES + 1)
  {
    RoundTheLists(start + i, (start + i) / (MAX_PAGES + 1), (start + i) % (MAX_PAGES + 1));
  }

  lemma RoundTheLists(x: int, q: int, r: int)
    requires 0 <= r <= MAX_PAGES && x == (MAX_PAGES + 1) * q + r
    ensures (r + 1) % (MAX_PAGES + 1) == (x + 1) % (MAX_PAGES + 1)
  {
    if r == MAX_PAGES {
      assert x + 1 == (MAX_PAGES + 1) * (q + 1);
    }
  }

  /** The lists visited by the first i steps of a round that began at list start are all empty. */
  ghost predicate AllVisitedEmpty(lists: Lists, start: int, i: int)
    requires |lists| == MAX_PAGES + 1
  {
    forall k :: 0 <= k <= MAX_PAGES && (if k >= start then k - start else k - start + MAX_PAGES + 1) < i ==>
      lists[k] == []
  }

  lemma VisitedOneMore(lists: Lists, start: int, i: int)
    requires |lists| == MAX_PAGES + 1 && 0 <= start <= MAX_PAGES && 0 <= i <= MAX_PAGES
    requires AllVisitedEmpty(lists, start, i) && lists[(start + i) % (MAX_PAGES + 1)] == []
    ensures AllVisitedEmpty(lists, start, i + 1)
  {
  }

  /** A round after i of its steps: what has been released, and which lists are known to be empty. */
  ghost predicate RoundSoFar(spans0: SpanMap, stats0: Stats, spans: SpanMap, st: Stats, normal: Lists, index: int,
                             start: int, i: int, already: int, released: int)
  {
    && 0 <= start <= MAX_PAGES && |normal| == MAX_PAGES + 1
    && ReleasedOnly(spans0, spans) && released >= already && st == ReleasedStats(stats0, released - already)
    && Wrap(index) == (start + i) % (MAX_PAGES + 1)
    && (released == already ==> AllVisitedEmpty(normal, start, i))
  }

  lemma RoundAdvances(spans0: SpanMap, stats0: Stats, spans: SpanMap, st: Stats, normal: Lists, index: int,
                      start: int, i: int, already: int, released: int,
                      spans': SpanMap, st': Stats, normal': Lists, index': int, n: int)
    requires RoundSoFar(spans0, stats0, spans, st, normal, index, start, i, already, released) && 0 <= i <= MAX_PAGES
    requires ReleasedOnly(spans0, spans') && n >= 0 && st' == ReleasedStats(st, n) && |normal'| == MAX_PAGES + 1
    requires Wrap(index') == (Wrap(index) + 1) % (MAX_PAGES + 1)
    requires n == 0 ==> normal' == normal && 0 <= Wrap(index) <= MAX_PAGES && normal[Wrap(index)] == []
    ensures RoundSoFar(spans0, stats0, spans', st', normal', index', start, i + 1, already, released + n)
  {
    NextList(index, start, i);
    if released + n == already {
      VisitedOneMore(normal, start, i);
    }
  }

  lemma EmptyRound(spans: SpanMap, normal: Lists, st: Stats, leaked: int, start: int)
    requires WellFormed(spans) && Listed(spans, normal, Normal) && Balanced(spans, spans, st, leaked)
    requires 0 <= start <= MAX_PAGES && AllVisitedEmpty(normal, start, MAX_PAGES + 1)
    ensures st.free == 0
  {
    FreeBytesIffListed(spans, normal, st, leaked);
  }

  /** The loop of RegisterSizeClass: name a span at its interior pages. */
  method NameInterior(pages: PageMap, id: int, s: Span) returns (pages': PageMap)
    requires s.length >= 1
    requires s.start in pages && pages[s.start] == id && s.End() - 1 in pages && pages[s.End() - 1] == id
    ensures forall p :: p in pages' <==> p in pages || s.Covers(p)
    ensures forall p :: p in pages && !s.Covers(p) ==> pages'[p] == pages[p]
    ensures forall p :: s.Covers(p) ==> p in pages' && pages'[p] == id
  {
    pages' := pages;
    var i := 1;
    while i < s.length - 1
      invariant 1 <= i && (i <= s.length - 1 || i == s.length == 1)
      invariant forall p :: p in pages' <==> p in pages || s.start < p < s.start + i
      invariant forall p :: p in pages && !(s.start < p < s.start + i) ==> pages'[p] == pages[p]
      invariant forall p :: s.start < p < s.start + i ==> p in pages' && pages'[p] == id
    {
      pages' := pages'[s.start + i := id];
      i := i + 1;
    }
    forall p
      ensures s.Covers(p) <==> p == s.start || p == s.End() - 1 || s.start < p < s.start + i
    {
    }
  }

  lemma UsedCut(spans: SpanMap, id: int, n: int, rest: int)
    requires id in spans && rest !in spans && spans[id].location == InUse
    ensures Used(Cut(spans, id, n, rest)) == Cut(Used(spans), id, n, rest)
  {
  }

  lemma UsedRelabel(spans: SpanMap, id: int, s: Span)
    requires id in spans && spans[id].location != InUse && s.location != InUse
    ensures Used(spans[id := s]) == Used(spans)
  {
  }

  lemma UsedTaken(spans: SpanMap, id: int, n: int, rest: int)
    requires id in spans && spans[id].location != InUse && rest !in spans
    ensures Used(Taken(spans, id, n, rest)) == Used(spans)[id := Taken(spans, id, n, rest)[id]]
  {
  }

  lemma UsedFreed(spans: SpanMap, id: int, s: Span)
    requires id in spans && s.location != InUse
    ensures Used(spans[id := s]) == Used(spans) - {id}
  {
  }

  lemma CutInUse(spans: SpanMap, normal: Lists, returned: Lists, id: int, n: int, rest: int, st: Stats, leaked: int)
    requires WellFormed(spans) && id in spans && rest !in spans && spans[id].location == InUse
    requires 0 < n < spans[id].length
    requires Disjoint(spans) && Coalesced(spans) && Balanced(spans, spans, st, leaked)
    requires Listed(spans, normal, Normal) && Listed(spans, returned, Returned)
    ensures var cut := Cut(spans, id, n, rest);
            && Coalesced(cut) && Listed(cut, normal, Normal) && Listed(cut, returned, Returned)
            && Balanced(cut, cut, st, leaked) && Used(cut) == Cut(Used(spans), id, n, rest)
  {
    var cut := Cut(spans, id, n, rest);
    UsedCut(spans, id, n, rest);
    CutPagesAt(spans, id, n, rest, InUse);
    CutPagesAt(spans, id, n, rest, Normal);
    CutPagesAt(spans, id, n, rest, Returned);
    ListedElsewhere(spans, cut, normal, Normal);
    ListedElsewhere(spans, cut, returned, Returned);
    forall a, b | a in cut && b in cut && cut[a].End() == cut[b].start
      ensures cut[a].location == InUse || cut[a].location != cut[b].location
    {
      var a0, b0 := if a == rest then id else a, if b == rest then id else b;
      assert spans[a0].location == InUse || spans[b0].location == InUse || spans[a0].End() == spans[b0].start;
    }
  }

  lemma RegisteredTags(spans: SpanMap, pages: PageMap, pages': PageMap, id: int, s: Span)
    requires BoundaryTags(spans, pages) && id in spans && s.location == InUse && s.sizeclass >= 0
    requires s.start == spans[id].start && s.length == spans[id].length
    requires forall p :: p in pages' <==> p in pages || s.Covers(p)
    requires forall p :: p in pages && !s.Covers(p) ==> pages'[p] == pages[p]
    requires forall p :: s.Covers(p) ==> p in pages' && pages'[p] == id
    ensures BoundaryTags(spans[id := s], pages')
  {
    var after := spans[id := s];
    RelabelDisjoint(spans, id, s);
    RegisteredStrays(spans, pages, pages', id, s);
    forall b | b in after
      ensures after[b].start in pages' && pages'[after[b].start] == b
      ensures after[b].End() - 1 in pages' && pages'[after[b].End() - 1] == b
      ensures after[b].sizeclass > 0 ==> forall p :: after[b].Covers(p) ==> p in pages' && pages'[p] == b
    {
      if b != id {
        assert Apart(after[b], after[id]);
      }
    }
  }

  lemma RegisteredStrays(spans: SpanMap, pages: PageMap, pages': PageMap, id: int, s: Span)
    requires NoStrays(spans, pages) && id in spans
    requires s.start == spans[id].start && s.length == spans[id].length
    requires forall p :: p in pages' <==> p in pages || s.Covers(p)
    ensures NoStrays(spans[id := s], pages')
  {
    RelabelCoverage(spans, id, s);
    forall p | p in pages'
      ensures Covered(spans[id := s], p)
    {
      assert spans[id].Covers(p) || Covered(spans, p);
      assert Covered(spans, p);
    }
  }

  lemma RegisteredBooks(spans: SpanMap, normal: Lists, returned: Lists, id: int, s: Span, st: Stats, leaked: int)
    requires id in spans && spans[id].location == InUse == s.location
    requires s.start == spans[id].start && s.length == spans[id].length
    requires Coalesced(spans) && Listed(spans, normal, Normal) && Listed(spans, returned, Returned)
    requires Balanced(spans, spans, st, leaked)
    ensures var after := spans[id := s];
            && Coalesced(after) && Listed(after, normal, Normal) && Listed(after, returned, Returned)
            && Balanced(after, after, st, leaked) && Used(after) == Used(spans)[id := s]
  {
    RelabelInUseKeepsCoalesced(spans, id, s);
    ListedElsewhere(spans, spans[id := s], normal, Normal);
    ListedElsewhere(spans, spans[id := s], returned, Returned);
    BalancedRelabel(spans, id, s);
  }

  /** The descriptors after the first n pages of span id are put in use. */
  function Taken(spans: SpanMap, id: int, n: int, rest: int): SpanMap
    requires id in spans
  {
    var s := spans[id];
    spans[rest := Span(s.start + n, s.length - n, s.location, 0)][id := s.(length := n, location := InUse)]
  }

  /** The first n pages of span id are in use now, what is left of it is a span of its own, and no other span
      changed. */
  ghost predicate CarvedFrom(before: SpanMap, after: SpanMap, id: int, n: int) {
    && id in before
    && if before[id].length == n then after == before[id := before[id].(location := InUse)]
       else exists rest :: rest !in before && after == Taken(before, id, n, rest)
  }

  lemma PartBalanced(spans: SpanMap, id: int, n: int, rest: int, st: Stats, leaked: int)
    requires id in spans && rest !in spans && spans[id].location != InUse && Balanced(spans, spans - {id}, st, leaked)
    ensures var after := Taken(spans, id, n, rest);
            var bytes := if spans[id].location == Returned then PAGE_SIZE * n else 0;
            Balanced(after, after - {rest}, st.(committed := st.committed + bytes), leaked)
  {
    var cut, after := Cut(spans, id, n, rest), Taken(spans, id, n, rest);
    BalancedCut(spans, id, n, rest, st, leaked);
    BalancedCommit(cut, cut - {id} - {rest}, id, st, leaked);
    assert cut[id := after[id]] == after;
    assert (cut - {id} - {rest})[id := after[id]] == after - {rest};
  }

  /** The first n pages of a span taken, the rest not yet on a list. */
  lemma PartKept(spans: SpanMap, pages: PageMap, normal: Lists, returned: Lists, id: int, n: int, rest: int, st: Stats,
                 leaked: int, after: SpanMap, pages': PageMap, st': Stats)
    requires id in spans && spans[id].location != InUse && rest !in spans && 0 < n < spans[id].length
    requires Kept(spans, pages, spans - {id}, normal, returned, st, leaked) && Coalesced(spans)
    requires after == Taken(spans, id, n, rest) && pages' == CutPages(pages, spans[id], n, id, rest)
    requires st' == st.(committed := st.committed + if spans[id].location == Returned then PAGE_SIZE * n else 0)
    ensures Kept(after, pages', after - {rest}, normal, returned, st', leaked) && Coalesced(after)
    ensures Used(after) == Used(spans)[id := after[id]] && SameCoverage(spans, after)
  {
    TakePart(spans, pages, normal, returned, id, n, rest, after, pages');
    PartBalanced(spans, id, n, rest, st, leaked);
  }

  /** A span taken whole: everything but the books. */
  lemma TakeWhole(spans: SpanMap, pages: PageMap, normal: Lists, returned: Lists, id: int)
    requires BoundaryTags(spans, pages) && Coalesced(spans) && id in spans && spans[id].location != InUse
    requires Listed(spans - {id}, normal, Normal) && Listed(spans - {id}, returned, Returned)
    ensures var after := spans[id := spans[id].(location := InUse)];
            && BoundaryTags(after, pages) && Coalesced(after) && SameCoverage(spans, after)
            && Listed(after, normal, Normal) && Listed(after, returned, Returned)
            && Used(after) == Used(spans)[id := after[id]]
            && (spans - {id})[id := after[id]] == after
  {
    var s := spans[id].(location := InUse);
    RelabelKeepsTags(spans, pages, id, s);
    RelabelCoverage(spans, id, s);
    RelabelInUseKeepsCoalesced(spans, id, s);
    ListedElsewhere(spans - {id}, spans[id := s], normal, Normal);
    ListedElsewhere(spans - {id}, spans[id := s], returned, Returned);
  }

  /** The first n pages of a span taken, the rest not yet on a list: everything but the books. */
  lemma TakePart(spans: SpanMap, pages: PageMap, normal: Lists, returned: Lists, id: int, n: int, rest: int,
                 after: SpanMap, pages': PageMap)
    requires BoundaryTags(spans, pages) && Coalesced(spans) && id in spans && spans[id].location != InUse
    requires rest !in spans && 0 < n < spans[id].length
    requires Listed(spans - {id}, normal, Normal) && Listed(spans - {id}, returned, Returned)
    requires after == Taken(spans, id, n, rest) && pages' == CutPages(pages, spans[id], n, id, rest)
    ensures BoundaryTags(after, pages') && Coalesced(after) && Coalesced(after - {rest}) && SameCoverage(spans, after)
    ensures Listed(after - {rest}, normal, Normal) && Listed(after - {rest}, returned, Returned)
    ensures Used(after) == Used(spans)[id := after[id]]
  {
    var cut := Cut(spans, id, n, rest);
    var s := cut[id].(location := InUse);
    assert cut[id := s] == after;
    UsedTaken(spans, id, n, rest);
    CutKeepsTags(spans, pages, id, n, rest);
    RelabelKeepsTags(cut, CutPages(pages, spans[id], n, id, rest), id, s);
    CutCoverage(spans, id, n, rest);
    RelabelCoverage(cut, id, s);
    SameCoverageTransitive(spans, cut, after);
    CarveKeepsCoalesced(spans, id, n, rest);
    SubsetCoalesced(after, rest);
    ListedElsewhere(spans - {id}, after - {rest}, normal, Normal);
    ListedElsewhere(spans - {id}, after - {rest}, returned, Returned);
  }
}
