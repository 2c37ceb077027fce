/** Aligned allocation: from a size class whose objects are aligned, or from the page heap with the unaligned ends of a
    larger span given back. */
module MemAlign {
  import opened Common
  import opened Spans
  import opened Powers
  import opened Alignments
  import opened SizeClasses
  import opened SizeMaps
  import opened PageHeaps

  /** Where the memory comes from: an object of a size class, or a span. */
  datatype Placement = Null | Object(cls: nat) | Pages(id: int)

  /** The number of pages that hold so many bytes. */
  function PagesOf(bytes: nat): (n: nat)
    ensures (n - 1) * PAGE_SIZE < bytes <= n * PAGE_SIZE
  {
    bytes / PAGE_SIZE + if bytes % PAGE_SIZE > 0 then 1 else 0
  }

  // ----- arithmetic of aligned pages

  /** All objects of a class whose size is aligned are aligned, wherever the span lies. */
  lemma ObjectsAligned(page: nat, i: nat, size: nat, align: nat)
    requires PowerOfTwo(align) && align <= PAGE_SIZE && Aligned(size, align)
    ensures Aligned(page * PAGE_SIZE + i * size, align)
  {
    SmallPowers();
    PowersDivide(align, PAGE_SIZE);
    var k, m := PAGE_SIZE / align, size / align;
    assert PAGE_SIZE == align * k && size == align * m;
    MulSwap(page, align, k);
    MulSwap(i, align, m);
    Distribute(align, page * k, i * m);
    DivideExactly(page * PAGE_SIZE + i * size, align, page * k + i * m);
  }

  lemma MulSwap(a: nat, b: nat, c: nat)
    ensures a * (b * c) == b * (a * c)
  {
  }

  lemma Distribute(a: nat, b: nat, c: nat)
    ensures a * (b + c) == a * b + a * c
  {
  }

  /** The alignment in pages. */
  lemma PageAlignment(align: nat) returns (m: nat)
    requires PowerOfTwo(align) && align > PAGE_SIZE
    ensures align == m * PAGE_SIZE && m >= 2
  {
    SmallPowers();
    PowersDivide(PAGE_SIZE, align);
    m := align / PAGE_SIZE;
  }

  /** Within any m consecutive pages one is aligned to m pages. */
  lemma AlignedPage(start: nat, align: nat, m: nat) returns (skip: nat)
    requires m >= 1 && align == m * PAGE_SIZE
    ensures skip < m && Aligned((start + skip) * PAGE_SIZE, align)
  {
    var k := start / m;
    var r := start % m;
    assert start == m * k + r;
    skip := if r == 0 then 0 else m - r;
    var j := if r == 0 then k else k + 1;
    Distribute(m, k, 1);
    assert start + skip == m * j;
    MulSwap(PAGE_SIZE, m, j);
    assert (start + skip) * PAGE_SIZE == align * j;
    DivideExactly((start + skip) * PAGE_SIZE, align, j);
  }

  // ----- trimming a span that was just handed out

  /** Give back the first pages of a span. */
  method TrimFront(heap: PageHeap, ghost before: SpanMap, id: int, skip: int) returns (rest: int)
    requires heap.Valid() && id in heap.spans && 0 < skip < heap.spans[id].length
    requires Handed(before, heap.spans, id, heap.spans[id].length)
    modifies heap
    ensures heap.Valid() && rest in heap.spans && heap.spans[rest].start == old(heap.spans[id].start) + skip
    ensures Handed(before, heap.spans, rest, old(heap.spans[id].length) - skip)
  {
    ghost var whole := heap.spans;
    rest := heap.Split(id, skip);
    ghost var split := heap.spans;
    heap.Delete(id);
    KeepRest(before, whole, split, heap.spans, id, skip, rest);
  }

  /** Give back the last pages of a span. */
  method TrimBack(heap: PageHeap, ghost before: SpanMap, id: int, needed: int)
    requires heap.Valid() && id in heap.spans && 0 < needed < heap.spans[id].length
    requires Handed(before, heap.spans, id, heap.spans[id].length)
    modifies heap
    ensures heap.Valid() && id in heap.spans && heap.spans[id].start == old(heap.spans[id].start)
    ensures Handed(before, heap.spans, id, needed)
  {
    ghost var whole := heap.spans;
    var trailer := heap.Split(id, needed);
    ghost var split := heap.spans;
    heap.Delete(trailer);
    KeepFirst(before, whole, split, heap.spans, id, needed, trailer);
  }

  lemma KeepRest(before: SpanMap, whole: SpanMap, split: SpanMap, after: SpanMap, id: int, n: int, rest: int)
    requires id in whole && Handed(before, whole, id, whole[id].length) && rest !in whole
    requires split == Cut(whole, id, n, rest) && id in Used(whole) && Used(split) == Cut(Used(whole), id, n, rest)
    requires Used(after) == Used(split) - {id}
    ensures rest in after && after[rest].start == whole[id].start + n
            && Handed(before, after, rest, whole[id].length - n)
  {
    assert rest !in Used(whole);
    assert rest in Used(after) && Used(after)[rest] == split[rest];
    assert Used(after) == Used(before)[rest := after[rest]];
  }

  lemma KeepFirst(before: SpanMap, whole: SpanMap, split: SpanMap, after: SpanMap, id: int, n: int, rest: int)
    requires id in whole && Handed(before, whole, id, whole[id].length) && rest !in whole
    requires split == Cut(whole, id, n, rest) && id in Used(whole) && Used(split) == Cut(Used(whole), id, n, rest)
    requires Used(after) == Used(split) - {rest}
    ensures id in after && after[id].start == whole[id].start && Handed(before, after, id, n)
  {
    assert rest !in Used(whole);
    assert id in Used(after) && Used(after)[id] == split[id];
    assert Used(after) == Used(before)[id := after[id]];
  }

  // ----- the two sources of memory

  /** The smallest class that holds the size and whose objects are aligned. */
  ghost predicate IsAlignedClass(classes: seq<Class>, size: nat, align: nat, c: nat) {
    && 1 <= c < |classes| && size <= classes[c].size && Aligned(classes[c].size, align)
    && forall d :: 1 <= d < c && size <= classes[d].size ==> !Aligned(classes[d].size, align)
  }

  /** The search for an aligned class never misses: the objects of the last class are aligned to every power of two
      below the page size. */
  method SearchClasses(sizes: SizeMap, size: nat, align: nat) returns (c: nat)
    requires sizes.Valid() && size <= MAX_SIZE && PowerOfTwo(align) && align < PAGE_SIZE
    ensures c < NUM_CLASSES && IsAlignedClass(sizes.classes, size, align, c)
  {
    LastClassAligned(align);
    c := sizes.SizeClass(size);
    while c < NUM_CLASSES && !Aligned(sizes.classes[c].size, align)
      invariant 1 <= c < NUM_CLASSES && size <= sizes.classes[c].size
      invariant forall d :: 1 <= d < c && size <= sizes.classes[d].size ==> !Aligned(sizes.classes[d].size, align)
    {
      c := c + 1;
    }
  }

  lemma LastClassAligned(align: nat)
    requires PowerOfTwo(align) && align <= PAGE_SIZE
    ensures Aligned(MAX_SIZE, align)
  {
    SmallPowers();
    PowersDivide(align, MAX_SIZE);
  }

  /** An ordinary allocation of a small size is aligned for every alignment up to that promised for the size. */
  lemma SmallAligned(sizes: SizeMap, size: nat, align: nat)
    requires sizes.Valid() && size <= MAX_SIZE && PowerOfTwo(align) && align <= Alignment(size)
    ensures IsAlignedClass(sizes.classes, size, align, sizes.SizeClass(size))
  {
    var c := sizes.classes[sizes.SizeClass(size)];
    AlignmentIsPower(size);
    PowersDivide(align, Alignment(size));
    DividesThrough(c.size, Alignment(size), align);
  }

  /** Find the aligned page in a span and give back what is before it. More pages than needed are left. */
  method DropFront(heap: PageHeap, ghost before: SpanMap, id: int, align: nat, size: nat) returns (r: int)
    requires heap.Valid() && PowerOfTwo(align) && align > PAGE_SIZE && size >= 1
    requires Handed(before, heap.spans, id, PagesOf(size + align))
    modifies heap
    ensures heap.Valid() && r in heap.spans && Handed(before, heap.spans, r, heap.spans[r].length)
    ensures heap.spans[r].start >= 0 && Aligned(heap.spans[r].start * PAGE_SIZE, align)
    ensures heap.spans[r].length > PagesOf(size)
  {
    var start: nat := heap.spans[id].start;
    ghost var m := PageAlignment(align);
    assert PagesOf(size + align) == PagesOf(size) + m;
    var skip := SkipToAligned(start, align, m);
    r := id;
    if skip > 0 {
      r := TrimFront(heap, before, id, skip);
    }
  }

  /** Cut the pages needed, from an aligned page on, out of a span. */
  method CarveAligned(heap: PageHeap, ghost before: SpanMap, id: int, align: nat, size: nat) returns (r: int)
    requires heap.Valid() && PowerOfTwo(align) && align > PAGE_SIZE && size >= 1
    requires Handed(before, heap.spans, id, PagesOf(size + align))
    modifies heap
    ensures heap.Valid() && Handed(before, heap.spans, r, PagesOf(size))
    ensures heap.spans[r].start >= 0 && Aligned(heap.spans[r].start * PAGE_SIZE, align)
  {
    r := DropFront(heap, before, id, align, size);
    var needed := PagesOf(size);
    if heap.spans[r].length > needed {
      TrimBack(heap, before, r, needed);
    }
  }

  /** The loop that skips pages until one is aligned. */
  method SkipToAligned(start: nat, align: nat, ghost m: nat) returns (skip: nat)
    requires m >= 1 && align == m * PAGE_SIZE
    ensures skip < m && Aligned((start + skip) * PAGE_SIZE, align)
  {
    ghost var goal := AlignedPage(start, align, m);
    skip := 0;
    while !Aligned((start + skip) * PAGE_SIZE, align)
      invariant skip <= goal
      decreases goal - skip
    {
      skip := skip + 1;
    }
  }

  /** The pages asked of the page heap, when it is asked at all. */
  function PagesAsked(align: nat, size: nat): nat {
    var bytes := if align <= Alignment(size) || size > 0 then size else 1;
    if align <= PAGE_SIZE then PagesOf(bytes) else PagesOf(bytes + align)
  }

  /** Allocation from whole pages: the span begins at an aligned address, and of the pages taken for it exactly
      those that hold the size stay in use. */
  method AlignedPages(heap: PageHeap, align: nat, size: nat, first: Option<Region>, second: Option<Region>,
                      mapped: bool)
    returns (r: Placement)
    requires heap.Valid() && PowerOfTwo(align) && size >= 1
    requires first.Some? ==> Deliverable(heap.spans, first.value, Larger(PagesAsked(align, size)))
    requires second.Some? ==> Deliverable(heap.spans, second.value, PagesAsked(align, size))
    modifies heap
    ensures heap.Valid() && !r.Object?
    ensures r.Null? ==> Used(heap.spans) == Used(old(heap.spans))
    ensures r.Null? && heap.limit == 0 ==> CannotGrow(PagesAsked(align, size), first, second, mapped)
    ensures r.Pages? ==> Handed(old(heap.spans), heap.spans, r.id, PagesOf(size)) && heap.spans[r.id].start >= 0
                         && Aligned(heap.spans[r.id].start * PAGE_SIZE, align)
  {
    ghost var before := heap.spans;
    var n := PagesAsked(align, size);
    var span := heap.New(n, first, second, mapped);
    if span.None? {
      return Null;
    }
    assert heap.spans[span.value].start >= 1;
    if align <= PAGE_SIZE {
      ObjectsAligned(heap.spans[span.value].start, 0, 0, align);
      return Pages(span.value);
    }
    var id := CarveAligned(heap, before, span.value, align, size);
    return Pages(id);
  }

  /** Aligned allocation. A request whose sum overflows 64 bits fails and changes nothing; otherwise the memory is
      aligned and large enough, whichever way it was found. */
  method Allocate(heap: PageHeap, sizes: SizeMap, align: nat, size: nat,
                  first: Option<Region>, second: Option<Region>, mapped: bool)
    returns (r: Placement)
    requires heap.Valid() && sizes.Valid() && PowerOfTwo(align) && align < WORD && size < WORD
    requires first.Some? ==> Deliverable(heap.spans, first.value, Larger(PagesAsked(align, size)))
    requires second.Some? ==> Deliverable(heap.spans, second.value, PagesAsked(align, size))
    modifies heap
    ensures heap.Valid()
    ensures size + align >= WORD ==> r.Null?
    ensures !r.Pages? ==> Used(heap.spans) == Used(old(heap.spans))
    ensures r.Object? ==> align <= PAGE_SIZE && IsAlignedClass(sizes.classes, size, align, r.cls)
    ensures r.Pages? ==> Handed(old(heap.spans), heap.spans, r.id, PagesOf(if size == 0 then 1 else size))
                         && heap.spans[r.id].start >= 0
                         && Aligned(heap.spans[r.id].start * PAGE_SIZE, align)
    ensures size <= MAX_SIZE && align < PAGE_SIZE ==> r.Object?
    ensures r.Null? && heap.limit == 0 ==>
              size + align >= WORD || CannotGrow(PagesAsked(align, size), first, second, mapped)
  {
    if size + align >= WORD {
      return Null;
    }
    var alignment := AlignmentForSize(size);
    if align <= alignment {
      if size <= MAX_SIZE {
        AlignmentIsPower(size);
        SmallAligned(sizes, size, align);
        return Object(sizes.SizeClass(size));
      }
      r := AlignedPages(heap, align, size, first, second, mapped);
      return;
    }
    var bytes := if size == 0 then 1 else size;
    if bytes <= MAX_SIZE && align < PAGE_SIZE {
      var c := SearchClasses(sizes, bytes, align);
      return Object(c);
    }
    r := AlignedPages(heap, align, bytes, first, second, mapped);
  }
}
