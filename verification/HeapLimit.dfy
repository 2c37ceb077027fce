/** A run of the page heap that ends at the failing assertion of AllocLarge. The limit is 1 MB, 128 pages, the
    release rate is 0, and system memory comes in huge pages of 4 MB: asked for 128 pages, the system delivers 512.
    They go out as spans of 100, 210 and 1 pages; the 201 pages left over are given back to the system and the 210
    pages are freed. */
module HeapLimit {
  import opened Common
  import opened Spans
  import opened FreeLists
  import opened PageHeaps

  const LIMIT: int := 1024 * 1024 / PAGE_SIZE
  const HUGE_PAGE: int := 4 * 1024 * 1024 / PAGE_SIZE
  const BASE: int := 7 * HUGE_PAGE   // where the region happens to be

  /** The region in four spans; l is where the second one is and m where the last one is. */
  function Layout(x: int, y: int, z: int, w: int, l: Location, m: Location): SpanMap {
    map[x := Span(BASE, 100, InUse, 0), y := Span(BASE + 100, 210, l, 0),
        z := Span(BASE + 310, 1, InUse, 0), w := Span(BASE + 311, 201, m, 0)]
  }

  /** A key that tells two maps apart. */
  lemma Difference<K, V>(a: map<K, V>, b: map<K, V>) returns (k: K)
    requires a != b
    ensures (k in a && (k !in b || a[k] != b[k])) || (k in b && k !in a)
  {
    if x :| x in a && (x !in b || a[x] != b[x]) {
      k := x;
    } else {
      k :| k in b && k !in a;
    }
  }

  lemma OneHolder(spans: SpanMap, a: int, b: int, p: int)
    requires Disjoint(spans) && a in spans && b in spans && spans[a].Covers(p) && spans[b].Covers(p)
    ensures a == b
  {
    assert a != b ==> Apart(spans[a], spans[b]);
  }

  /** Spans that account for every covered page are all the spans there are. */
  lemma NothingElse(spans: SpanMap, known: SpanMap)
    requires WellFormed(spans) && Disjoint(spans)
    requires forall id :: id in known ==> id in spans && spans[id] == known[id]
    requires forall p :: Covered(spans, p) ==> Covered(known, p)
    ensures spans == known
  {
    if spans != known {
      var id := Difference(spans, known);
      var p := spans[id].start;
      assert spans[id].Covers(p) && Covered(spans, p) && Covered(known, p);
      var k :| k in known && known[k].Covers(p);
      OneHolder(spans, id, k, p);
    }
  }

  /** A region entered in an empty heap is one free span. */
  lemma OneRegion(spans: SpanMap) returns (x: int)
    requires WellFormed(spans) && Disjoint(spans) && HasFree(spans, HUGE_PAGE) && PagesAt(spans, Returned) == 0
    requires forall p :: Covered(spans, p) ==> BASE <= p < BASE + HUGE_PAGE
    ensures spans == map[x := Span(BASE, HUGE_PAGE, Normal, 0)] && PagesAt(spans, Normal) == HUGE_PAGE
  {
    x :| x in spans && spans[x].location != InUse && spans[x].length >= HUGE_PAGE;
    PagesBounds(spans, Returned);
    assert spans[x].Covers(spans[x].start) && spans[x].Covers(spans[x].End() - 1);
    assert Covered(spans, spans[x].start) && Covered(spans, spans[x].End() - 1);
    forall p | Covered(spans, p)
      ensures Covered(map[x := spans[x]], p)
    {
      assert map[x := spans[x]][x].Covers(p);
    }
    NothingElse(spans, map[x := spans[x]]);
    var none: SpanMap := map[];
    PagesWith(none, Normal, x, spans[x]);
    assert none - {x} == none && none[x := spans[x]] == spans;
    PagesZero(none, Normal);
  }

  /** Span x is a normal one and no other span is free. */
  ghost predicate OnlyFree(spans: SpanMap, x: int) {
    x in spans && spans[x].location == Normal && forall id :: id in spans && id != x ==> spans[id].location == InUse
  }

  /** When only one span is free, and is a normal one, it is the best fit. */
  lemma OnlyFreeIsBest(spans: SpanMap, n: int, x: int)
    requires OnlyFree(spans, x) && spans[x].length >= Larger(n)
    ensures HasFree(spans, Larger(n)) && !BestIsReturned(spans, n)
    ensures forall id :: BestLarge(spans, n, id) ==> id == x
  {
  }

  /** Allocate from the only free span, which is longer than needed. */
  method TakeSome(heap: PageHeap, n: int, ghost x: int) returns (id: int, ghost rest: int)
    requires heap.Valid() && n >= 1 && OnlyFree(heap.spans, x)
    requires heap.spans[x].length >= Larger(n) && heap.spans[x].length > n
    modifies heap`spans, heap`pagemap, heap`normal, heap`returned, heap`stats, heap`releaseCalls, heap`releaseIndex
    ensures heap.Valid() && id == x && rest !in old(heap.spans) && heap.spans == Taken(old(heap.spans), x, n, rest)
    ensures heap.stats.free == old(heap.stats.free) - n * PAGE_SIZE && heap.stats.unmapped == old(heap.stats.unmapped)
  {
    OnlyFreeIsBest(heap.spans, n, x);
    var r, _ := heap.AllocLarge(n);
    id := r.value;
    assert CarvedFrom(old(heap.spans), heap.spans, id, n);
    rest :| rest !in old(heap.spans) && heap.spans == Taken(old(heap.spans), x, n, rest);
  }

  /** A new heap that has grown by one region. */
  method Grow() returns (heap: PageHeap, ghost x: int)
    ensures fresh(heap) && heap.Valid() && heap.limit == LIMIT && heap.taken == HUGE_PAGE
    ensures heap.releaseRate == 0.0 && forall k :: heap.releases(k)
    ensures heap.spans == map[x := Span(BASE, HUGE_PAGE, Normal, 0)] && OnlyFree(heap.spans, x)
    ensures heap.stats.free == HUGE_PAGE * PAGE_SIZE && heap.stats.unmapped == 0
  {
    heap := new PageHeap(LIMIT, 0.0, _ => true);
    var allowed := heap.EnsureLimit(MAX_PAGES, true);
    assert allowed;
    var _ := heap.AddRegion(Region(BASE, HUGE_PAGE), true);
    x := OneRegion(heap.spans);
  }

  /** Four spans, told apart. */
  ghost predicate Apart4(x: int, y: int, z: int, w: int) {
    x != y && x != z && x != w && y != z && y != w && z != w
  }

  function InTwo(x: int, y: int): SpanMap {
    map[x := Span(BASE, 100, InUse, 0), y := Span(BASE + 100, 412, Normal, 0)]
  }

  function InThree(x: int, y: int, z: int): SpanMap {
    map[x := Span(BASE, 100, InUse, 0), y := Span(BASE + 100, 210, InUse, 0),
        z := Span(BASE + 310, 202, Normal, 0)]
  }

  lemma FirstTaken(x: int, y: int)
    requires x != y
    ensures Taken(map[x := Span(BASE, HUGE_PAGE, Normal, 0)], x, 100, y) == InTwo(x, y) && OnlyFree(InTwo(x, y), y)
  {
  }

  lemma SecondTaken(x: int, y: int, z: int)
    requires x != y && x != z && y != z
    ensures Taken(InTwo(x, y), y, 210, z) == InThree(x, y, z) && OnlyFree(InThree(x, y, z), z)
  {
  }

  lemma ThirdTaken(x: int, y: int, z: int, w: int)
    requires Apart4(x, y, z, w)
    ensures Taken(InThree(x, y, z), z, 1, w) == Layout(x, y, z, w, InUse, Normal)
  {
  }

  /** The region is handed out in three allocations. */
  method HandOut() returns (heap: PageHeap, ghost x: int, y: int, ghost z: int, ghost w: int)
    ensures fresh(heap) && heap.Valid() && heap.limit == LIMIT && heap.taken == HUGE_PAGE
    ensures heap.releaseRate == 0.0 && forall k :: heap.releases(k)
    ensures Apart4(x, y, z, w) && heap.spans == Layout(x, y, z, w, InUse, Normal)
    ensures heap.stats.free == 201 * PAGE_SIZE && heap.stats.unmapped == 0
  {
    heap, x := Grow();
    var _, rest := TakeSome(heap, 100, x);
    FirstTaken(x, rest);
    y, z := TakeSome(heap, 210, rest);
    SecondTaken(x, y, z);
    var _, w' := TakeSome(heap, 1, z);
    w := w';
    ThirdTaken(x, y, z, w);
  }

  /** Once no page is normal, a page of the last span is returned. */
  lemma NowReturned(before: SpanMap, after: SpanMap, x: int, y: int, z: int, w: int, p: int)
    requires Apart4(x, y, z, w) && before == Layout(x, y, z, w, InUse, Normal) && BASE + 311 <= p <= BASE + 511
    requires WellFormed(after) && Used(after) == Used(before) && SameCoverage(before, after)
             && PagesAt(after, Normal) == 0
    ensures PageAt(after, p, Returned)
  {
    PagesBounds(after, Normal);
    assert before[w].Covers(p);
    assert Covered(before, p);
    var id :| id in after && after[id].Covers(p);
    assert after[id].location == InUse ==> id in Used(after);
  }

  /** The 201 pages left over are then one span. */
  lemma LeftOver(before: SpanMap, after: SpanMap, x: int, y: int, z: int, w: int) returns (v: int)
    requires Apart4(x, y, z, w) && before == Layout(x, y, z, w, InUse, Normal)
    requires WellFormed(after) && Disjoint(after) && Coalesced(after)
    requires Used(after) == Used(before) && SameCoverage(before, after) && PagesAt(after, Normal) == 0
    ensures Apart4(x, y, z, v) && after == Layout(x, y, z, v, InUse, Returned)
  {
    forall p | BASE + 311 <= p <= BASE + 511
      ensures PageAt(after, p, Returned)
    {
      NowReturned(before, after, x, y, z, w, p);
    }
    v := RunWithinOneSpan(after, Returned, BASE + 311, BASE + 511);
    assert x in Used(after) && y in Used(after) && z in Used(after);
    assert Apart(after[v], after[z]);
    var last := after[v].End() - 1;
    assert after[v].Covers(last) && Covered(after, last) && Covered(before, last);
    SameAs(before, after, Layout(x, y, z, v, InUse, Returned));
  }

  /** A map known span by span that covers what was covered before. */
  lemma SameAs(before: SpanMap, after: SpanMap, known: SpanMap)
    requires WellFormed(after) && Disjoint(after) && SameCoverage(before, after)
    requires forall id :: id in known ==> id in after && after[id] == known[id]
    requires forall p :: Covered(before, p) ==> Covered(known, p)
    ensures after == known
  {
    NothingElse(after, known);
  }

  /** Freeing the 210 pages, which have a span in use on either side, changes no other span. */
  lemma FreedAlone(before: SpanMap, after: SpanMap, x: int, y: int, z: int, v: int)
    requires Apart4(x, y, z, v) && before == Layout(x, y, z, v, InUse, Returned)
    requires WellFormed(after) && Disjoint(after) && SameCoverage(before, after)
    requires Used(after) == Used(before) - {y} && FreedInto(before, after, y)
    ensures after == Layout(x, y, z, v, Normal, Returned)
  {
    assert Used(before) - {y} == map[x := before[x], z := before[z]];
    assert x in Used(after) && z in Used(after);
    assert Apart(after[y], after[x]) && Apart(after[y], after[z]);
    var freed := before[y := Span(BASE + 100, 210, Normal, 0)];
    assert (v in after && after[v] == freed[v]) || Within(freed[v], after[y]);
    assert after[y] == freed[y] || Within(freed[y], after[y]);
    SameAs(before, after, Layout(x, y, z, v, Normal, Returned));
  }

  /** Give the left-over pages back to the system, which accepts, and free the 210 pages. */
  method GiveBackAndFree() returns (heap: PageHeap, y: int, ghost v: int)
    ensures fresh(heap) && heap.Valid() && heap.limit == LIMIT && forall k :: heap.releases(k)
    ensures exists x, z :: Apart4(x, y, z, v) && heap.spans == Layout(x, y, z, v, Normal, Returned)
    ensures heap.Overcommitted(140)
  {
    ghost var x, z, w;
    heap, x, y, z, w := HandOut();
    ghost var handed := heap.spans;
    var released := heap.ReleaseAtLeastNPages(201);
    FreeBytesNonNegative(heap.spans, heap.stats, heap.leaked);
    v := LeftOver(handed, heap.spans, x, y, z, w);
    ghost var given := heap.spans;
    heap.Delete(y);
    FreedAlone(given, heap.spans, x, y, z, v);
  }

  /** The best fit for 140 pages is then the returned span, although there is a normal one. */
  lemma BestWasReturned(spans: SpanMap, x: int, y: int, z: int, v: int)
    requires Apart4(x, y, z, v) && spans == Layout(x, y, z, v, Normal, Returned)
    ensures BestIsReturned(spans, 140) && HasNormal(spans, Larger(140))
  {
    assert BestLarge(spans, 140, v);
    assert spans[y].length >= Larger(140);
  }

  /** A request for 140 pages then fails with 210 normal pages at hand, though the system accepts every release. */
  method AssertionFails() returns (r: Option<int>, ghost held: bool)
    ensures r.None? && !held
  {
    var heap, y, v := GiveBackAndFree();
    ghost var x, z :| Apart4(x, y, z, v) && heap.spans == Layout(x, y, z, v, Normal, Returned);
    BestWasReturned(heap.spans, x, y, z, v);
    r, held := heap.AllocLarge(140);
  }
}
