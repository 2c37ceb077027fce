/** The page heap and the radix tree behind its page map: every entry the heap reads or writes has a leaf, so that
    it may follow the pointers of the tree without checking them. */
module MappedHeap {
  import opened Common
  import opened Spans
  import opened FreeLists
  import opened PageHeaps
  import PageMaps

  ghost predicate HasLeaf<V>(g: PageMaps.Shape, root: PageMaps.Root<V>, p: int)
    requires g.Valid()
  {
    0 <= p < g.Pages() && PageMaps.LeafOf(g, root, p).Some?
  }

  /** There are leaves for the pages of every span, and for the page on either side. */
  ghost predicate Leafy<V>(g: PageMaps.Shape, root: PageMaps.Root<V>, spans: SpanMap)
    requires g.Valid()
  {
    forall p {:trigger Covered(spans, p)} :: Covered(spans, p) ==>
      HasLeaf(g, root, p - 1) && HasLeaf(g, root, p) && HasLeaf(g, root, p + 1)
  }

  /** What leaves the coverage alone needs no more leaves. */
  lemma SameCoverageLeafy<V>(g: PageMaps.Shape, root: PageMaps.Root<V>, before: SpanMap, after: SpanMap)
    requires g.Valid() && Leafy(g, root, before) && SameCoverage(before, after)
    ensures Leafy(g, root, after)
  {
    forall p | Covered(after, p)
      ensures HasLeaf(g, root, p - 1) && HasLeaf(g, root, p) && HasLeaf(g, root, p + 1)
    {
      assert Covered(before, p);
    }
  }

  lemma GrownLeafy<V>(g: PageMaps.Shape, before: PageMaps.Root<V>, after: PageMaps.Root<V>, spans: SpanMap)
    requires g.Valid() && Leafy(g, before, spans) && PageMaps.Grown(g, before, after)
    ensures Leafy(g, after, spans)
  {
    forall p | Covered(spans, p)
      ensures HasLeaf(g, after, p - 1) && HasLeaf(g, after, p) && HasLeaf(g, after, p + 1)
    {
      assert HasLeaf(g, before, p - 1) && HasLeaf(g, before, p) && HasLeaf(g, before, p + 1);
    }
  }

  /** Every entry of the page map has a leaf, and so have the entries that are read to merge a span. */
  lemma EntriesHaveLeaves<V>(g: PageMaps.Shape, root: PageMaps.Root<V>, spans: SpanMap, pages: PageMap)
    requires g.Valid() && BoundaryTags(spans, pages) && Leafy(g, root, spans)
    ensures forall p :: p in pages ==> HasLeaf(g, root, p)
    ensures forall id :: id in spans ==> HasLeaf(g, root, spans[id].start - 1) && HasLeaf(g, root, spans[id].End())
  {
    forall p | p in pages
      ensures HasLeaf(g, root, p)
    {
      assert Covered(spans, p);
    }
    forall id | id in spans
      ensures HasLeaf(g, root, spans[id].start - 1) && HasLeaf(g, root, spans[id].End())
    {
      var s := spans[id];
      assert s.Covers(s.start) && s.Covers(s.End() - 1);
      assert Covered(spans, s.start) && Covered(spans, s.End() - 1);
    }
  }

  /** Write an entry of the heap's page map into the tree, where there is a leaf for it. */
  method Write(heap: PageHeap, tree: PageMaps.PageMap<int>, p: int)
    requires heap.Valid() && tree.Valid() && Leafy(tree.g, tree.root, heap.spans) && p in heap.pagemap
    modifies tree
    ensures tree.Valid() && Leafy(tree.g, tree.root, heap.spans)
    ensures tree.contents == old(tree.contents)[p := heap.pagemap[p]]
  {
    EntriesHaveLeaves(tree.g, tree.root, heap.spans, heap.pagemap);
    ghost var before := tree.root;
    tree.Set(p, Some(heap.pagemap[p]));
    forall q | Covered(heap.spans, q)
      ensures HasLeaf(tree.g, tree.root, q - 1) && HasLeaf(tree.g, tree.root, q) && HasLeaf(tree.g, tree.root, q + 1)
    {
      assert HasLeaf(tree.g, before, q - 1) && HasLeaf(tree.g, before, q) && HasLeaf(tree.g, before, q + 1);
    }
  }

  /** A region with leaves from the page before it to the page after it. */
  lemma RegionLeafy<V>(g: PageMaps.Shape, root: PageMaps.Root<V>, before: SpanMap, after: SpanMap, r: Region)
    requires g.Valid() && Leafy(g, root, before) && r.start >= 1 && r.start + r.pages < g.Pages()
    requires PageMaps.Ensured(g, root, r.start - 1, r.start + r.pages)
    requires forall p :: Covered(after, p) <==> Covered(before, p) || InRegion(r, p)
    ensures Leafy(g, root, after)
  {
    forall p | Covered(after, p)
      ensures HasLeaf(g, root, p - 1) && HasLeaf(g, root, p) && HasLeaf(g, root, p + 1)
    {
      if !Covered(before, p) {
        assert PageMaps.LeafOf(g, root, p - 1).Some? && PageMaps.LeafOf(g, root, p).Some?;
        assert PageMaps.LeafOf(g, root, p + 1).Some?;
      }
    }
  }

  /** The region lies within the address space. */
  predicate Addressable(r: Region) { r.start + r.pages <= WORD / PAGE_SIZE }

  /** Enter a region of which the tree can name every page; a region of which it cannot is lost. */
  method Enter(heap: PageHeap, tree: PageMaps.PageMap<int>, r: Region) returns (ok: bool)
    requires heap.Valid() && tree.Valid() && Leafy(tree.g, tree.root, heap.spans)
    requires r.pages >= 1 && Deliverable(heap.spans, r, r.pages) && Addressable(r)
    modifies heap, tree`root, tree`memory
    ensures heap.Valid() && tree.Valid() && Leafy(tree.g, tree.root, heap.spans) && tree.contents == old(tree.contents)
    ensures Used(heap.spans) == Used(old(heap.spans)) && FitsAsBefore(old(heap.spans), heap.spans)
    ensures ok ==> HasFree(heap.spans, r.pages)
    ensures ok ==> forall p :: Covered(heap.spans, p) <==> Covered(old(heap.spans), p) || InRegion(r, p)
    ensures !ok ==>
              SameCoverage(old(heap.spans), heap.spans) && (r.start + r.pages >= tree.g.Pages() || tree.memory == 0)
  {
    var mapped := tree.Ensure(r.start - 1, r.pages + 2);
    GrownLeafy(tree.g, old(tree.root), tree.root, heap.spans);
    ok := heap.AddRegion(r, mapped);
    if ok {
      RegionLeafy(tree.g, tree.root, old(heap.spans), heap.spans, r);
    } else {
      SameCoverageLeafy(tree.g, tree.root, old(heap.spans), heap.spans);
    }
  }

  /** GrowHeap with the tree: the only further reasons not to grow are that the tree is out of memory or out of
      range. */
  method Grow(heap: PageHeap, tree: PageMaps.PageMap<int>, n: int, first: Option<Region>, second: Option<Region>)
    returns (ok: bool)
    requires heap.Valid() && tree.Valid() && Leafy(tree.g, tree.root, heap.spans) && n >= 1
    requires first.Some? ==> Deliverable(heap.spans, first.value, Larger(n)) && Addressable(first.value)
    requires second.Some? ==> Deliverable(heap.spans, second.value, n) && Addressable(second.value)
    modifies heap, tree`root, tree`memory
    ensures heap.Valid() && tree.Valid() && Leafy(tree.g, tree.root, heap.spans) && tree.contents == old(tree.contents)
    ensures Used(heap.spans) == Used(old(heap.spans)) && FitsAsBefore(old(heap.spans), heap.spans)
    ensures ok ==> HasFree(heap.spans, n)
    ensures !ok ==> SameCoverage(old(heap.spans), heap.spans)
    ensures heap.limit == 0 && !ok ==>
              || CannotGrow(n, first, second, true) || tree.memory == 0
              || exists r :: (Some(r) == first || Some(r) == second) && r.start + r.pages >= tree.g.Pages()
  {
    if n > MAX_VALID_PAGES {
      return false;
    }
    var got := heap.AskSystem(n, first, second);
    ghost var mid := heap.spans;
    SameCoverageLeafy(tree.g, tree.root, old(heap.spans), mid);
    if got.None? {
      return false;
    }
    ok := Enter(heap, tree, got.value);
    GrownFrom(old(heap.spans), mid, heap.spans, got.value, ok, n);
    assert Some(got.value) == first || Some(got.value) == second;
  }
}
