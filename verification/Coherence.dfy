/** The page-to-sizeclass cache is written without locks and never purged. A machine over the page heap's effects, the
    cache and the threads' reads and writes of it shows that a stale entry is never consulted. */
module Coherence {
  import opened Common
  import opened Spans
  import C = PackedCaches

  /** Where a thread is. */
  datatype PC =
    | Idle
    | Filling(id: int, done: nat)              // Populate: entries written for the first pages of a new span
    | Freeing(ptr: nat, cl: nat, put: bool)    // do_free_helper: class known, entry perhaps to be written
    | Sizing(ptr: nat, cl: nat)                // GetSizeWithCallback: entry to be written

  datatype State = State(
    spans: SpanMap, pages: PageMap,   // the page heap
    table: C.Table,                   // the cache
    live: map<nat, int>,              // allocated objects, by address, with their spans
    published: set<int>,              // spans whose objects may be allocated
    threads: seq<PC>)

  function PageOf(ptr: nat): nat { ptr / PAGE_SIZE }

  /** GetSizeClassIfCached: 0 for no information. */
  function Cached(m: C.Layout, s: State, p: nat): nat {
    match C.Lookup(m, s.table, p) case Some(v) => v case None => 0
  }

  /** What any call into the page heap leaves behind: intact boundary tags and pages the cache can have as keys. */
  ghost predicate HeapOk(m: C.Layout, spans: SpanMap, pages: PageMap) {
    && BoundaryTags(spans, pages)
    && forall id :: id in spans ==> spans[id].End() <= C.KeyLimit(m) && spans[id].sizeclass < C.VALUES
  }

  datatype Action =
    | NewSmall(spans: SpanMap, pages: PageMap, id: int)        // Populate: New and RegisterSizeClass
    | CacheNext                                                // Populate: the entry of one more page
    | Publish                                                  // Populate: the span joins its list
    | AllocateSmall(ptr: nat, id: int)
    | AllocateLarge(spans: SpanMap, pages: PageMap, id: int)   // New, perhaps Split and Delete, then SpanToMallocResult
    | StartFree(ptr: nat)
    | FinishFreeSmall
    | FinishFreeLarge(spans: SpanMap, pages: PageMap)          // Delete
    | DeleteSmall(spans: SpanMap, pages: PageMap, id: int)     // the last object of a span has come back
    | StartSize(ptr: nat)
    | FinishSize
    | Scavenge(spans: SpanMap, pages: PageMap)

  /** Is some thread in the middle of freeing or sizing ptr? */
  ghost predicate Busy(s: State, ptr: nat) {
    exists t :: 0 <= t < |s.threads| && (s.threads[t].Freeing? || s.threads[t].Sizing?) && s.threads[t].ptr == ptr
  }

  /** An object that is being freed is not sized at the same time; two threads may size the same one. */
  ghost predicate BeingFreed(s: State, ptr: nat) {
    exists t :: 0 <= t < |s.threads| && s.threads[t].Freeing? && s.threads[t].ptr == ptr
  }

  ghost predicate Enabled(m: C.Layout, s: State, t: nat, a: Action) {
    && t < |s.threads|
    && var pc := s.threads[t];
    match a
    case NewSmall(spans, pages, id) =>
      && pc.Idle? && HeapOk(m, spans, pages) && id in spans && id !in Used(s.spans)
      && spans[id].location == InUse && spans[id].sizeclass > 0 && Used(spans) == Used(s.spans)[id := spans[id]]
    case CacheNext =>
      && pc.Filling? && pc.id in s.spans && pc.done < s.spans[pc.id].length
      && s.spans[pc.id].start >= 0 && s.spans[pc.id].sizeclass >= 0
    case Publish => pc.Filling? && pc.id in s.spans && pc.done == s.spans[pc.id].length
    case AllocateSmall(ptr, id) =>
      pc.Idle? && id in s.published && id in s.spans && s.spans[id].Covers(PageOf(ptr)) && ptr !in s.live
    case AllocateLarge(spans, pages, id) =>
      && pc.Idle? && HeapOk(m, spans, pages) && id in spans && id !in Used(s.spans)
      && spans[id].location == InUse && spans[id].sizeclass == 0 && Used(spans) == Used(s.spans)[id := spans[id]]
    case StartFree(ptr) =>
      pc.Idle? && ptr in s.live && PageOf(ptr) in s.pages && s.pages[PageOf(ptr)] in s.spans && !Busy(s, ptr)
    case FinishFreeSmall => pc.Freeing? && pc.cl != 0
    case FinishFreeLarge(spans, pages) =>
      && pc.Freeing? && pc.cl == 0 && PageOf(pc.ptr) in s.pages
      && HeapOk(m, spans, pages) && Used(spans) == Used(s.spans) - {s.pages[PageOf(pc.ptr)]}
    case DeleteSmall(spans, pages, id) =>
      && pc.Idle? && id in s.published && (forall ptr :: ptr in s.live ==> s.live[ptr] != id)
      && HeapOk(m, spans, pages) && Used(spans) == Used(s.spans) - {id}
    case StartSize(ptr) =>
      pc.Idle? && ptr in s.live && PageOf(ptr) in s.pages && s.pages[PageOf(ptr)] in s.spans && !BeingFreed(s, ptr)
    case FinishSize => pc.Sizing?
    case Scavenge(spans, pages) => pc.Idle? && HeapOk(m, spans, pages) && Used(spans) == Used(s.spans)
  }

  function Put(m: C.Layout, s: State, p: nat, cl: nat): State {
    s.(table := C.Written(m, s.table, p, cl))
  }

  function At(s: State, t: nat, pc: PC): State
    requires t < |s.threads|
  {
    s.(threads := s.threads[t := pc])
  }

  /** The class do_free_helper and GetSizeWithCallback work with: the cached one, or else the descriptor's. */
  function ClassOf(m: C.Layout, s: State, ptr: nat): nat
    requires PageOf(ptr) in s.pages && s.pages[PageOf(ptr)] in s.spans
  {
    var c := Cached(m, s, PageOf(ptr));
    var sc := s.spans[s.pages[PageOf(ptr)]].sizeclass;
    if c != 0 then c else if sc >= 0 then sc else 0
  }

  ghost function Step(m: C.Layout, s: State, t: nat, a: Action): State
    requires Enabled(m, s, t, a)
  {
    var pc := s.threads[t];
    match a
    case NewSmall(spans, pages, id) => At(s, t, Filling(id, 0)).(spans := spans, pages := pages)
    case CacheNext =>
      Put(m, At(s, t, Filling(pc.id, pc.done + 1)), s.spans[pc.id].start + pc.done, s.spans[pc.id].sizeclass)
    case Publish => At(s, t, Idle).(published := s.published + {pc.id})
    case AllocateSmall(ptr, id) => s.(live := s.live[ptr := id])
    case AllocateLarge(spans, pages, id) =>
      Put(m, s, spans[id].start, 0).(spans := spans, pages := pages, live := s.live[spans[id].start * PAGE_SIZE := id])
    case StartFree(ptr) =>
      At(s, t, Freeing(ptr, ClassOf(m, s, ptr), Cached(m, s, PageOf(ptr)) == 0))
    case FinishFreeSmall =>
      var s1 := if pc.put then Put(m, s, PageOf(pc.ptr), pc.cl) else s;
      At(s1, t, Idle).(live := s.live - {pc.ptr})
    case FinishFreeLarge(spans, pages) =>
      At(Put(m, s, PageOf(pc.ptr), 0), t, Idle).(spans := spans, pages := pages, live := s.live - {pc.ptr})
    case DeleteSmall(spans, pages, id) => s.(spans := spans, pages := pages, published := s.published - {id})
    case StartSize(ptr) =>
      if Cached(m, s, PageOf(ptr)) != 0 || ClassOf(m, s, ptr) == 0 then s else At(s, t, Sizing(ptr, ClassOf(m, s, ptr)))
    case FinishSize =>
      At(Put(m, s, PageOf(pc.ptr), pc.cl), t, Idle)
    case Scavenge(spans, pages) => s.(spans := spans, pages := pages)
  }

  // ----- the invariant

  /** The cache knows nothing, or the truth, about page p of span id. */
  ghost predicate Truthful(m: C.Layout, s: State, id: int, p: int)
    requires id in s.spans
  {
    p >= 0 && (Cached(m, s, p) == 0 || Cached(m, s, p) == s.spans[id].sizeclass)
  }

  /** A live object lies in a span in use: a published one of small objects, or at the start of its own. */
  ghost predicate LiveOk(s: State, ptr: nat)
    requires ptr in s.live
  {
    var id := s.live[ptr];
    && id in s.spans && s.spans[id].location == InUse && s.spans[id].Covers(PageOf(ptr))
    && (if s.spans[id].sizeclass > 0 then id in s.published
        else ptr == s.spans[id].start * PAGE_SIZE && id !in s.published)
  }

  ghost predicate PublishedOk(m: C.Layout, s: State, id: int) {
    && id in s.spans && s.spans[id].location == InUse && s.spans[id].sizeclass > 0
    && forall p :: s.spans[id].Covers(p) ==> Truthful(m, s, id, p)
  }

  ghost predicate ThreadOk(m: C.Layout, s: State, t: nat)
    requires t < |s.threads|
  {
    match s.threads[t]
    case Idle => true
    case Filling(id, done) =>
      && id in s.spans && s.spans[id].location == InUse && s.spans[id].sizeclass > 0 && done <= s.spans[id].length
      && id !in s.published
      && (forall p :: s.spans[id].start <= p < s.spans[id].start + done ==> Truthful(m, s, id, p))
      && (forall ptr :: ptr in s.live ==> s.live[ptr] != id)
    case Freeing(ptr, cl, _) => ptr in s.live && LiveOk(s, ptr) && cl == s.spans[s.live[ptr]].sizeclass
    case Sizing(ptr, cl) => ptr in s.live && LiveOk(s, ptr) && cl == s.spans[s.live[ptr]].sizeclass > 0
  }

  /** Threads do not share: a span being filled, or an object being freed, belongs to one of them. */
  ghost predicate Apart2(a: PC, b: PC) {
    && (a.Filling? && b.Filling? ==> a.id != b.id)
    && (a.Freeing? && (b.Freeing? || b.Sizing?) ==> a.ptr != b.ptr)
    && (a.Sizing? && b.Freeing? ==> a.ptr != b.ptr)
  }

  ghost predicate Inv(m: C.Layout, s: State) {
    && HeapOk(m, s.spans, s.pages)
    && (forall ptr :: ptr in s.live ==> LiveOk(s, ptr))
    && (forall ptr :: ptr in s.live && s.spans[s.live[ptr]].sizeclass == 0 ==> Truthful(m, s, s.live[ptr], PageOf(ptr)))
    && (forall id :: id in s.published ==> PublishedOk(m, s, id))
    && (forall t :: 0 <= t < |s.threads| ==> ThreadOk(m, s, t))
    && (forall t, u :: 0 <= t < u < |s.threads| ==> Apart2(s.threads[t], s.threads[u]))
  }

  /** The page map names the span of a live object at the object's page. */
  lemma LiveFacts(m: C.Layout, s: State, ptr: nat)
    requires HeapOk(m, s.spans, s.pages) && ptr in s.live && LiveOk(s, ptr)
    ensures var p := PageOf(ptr); p < C.KeyLimit(m) && p in s.pages && s.pages[p] == s.live[ptr]
  {
  }

  /** The theorem's conclusion: for the page of every live object the cache yields 0 or the size class of the span
      the page map gives. */
  lemma Coherent(m: C.Layout, s: State, ptr: nat)
    requires Inv(m, s) && ptr in s.live
    ensures var p := PageOf(ptr);
            && p >= 0 && p in s.pages && s.pages[p] in s.spans
            && (Cached(m, s, p) == 0 || Cached(m, s, p) == s.spans[s.pages[p]].sizeclass)
            && ClassOf(m, s, ptr) == s.spans[s.live[ptr]].sizeclass
  {
    LiveFacts(m, s, ptr);
    var id := s.live[ptr];
    if s.spans[id].sizeclass > 0 {
      assert PublishedOk(m, s, id) && Truthful(m, s, id, PageOf(ptr));
    }
  }

  // ----- writing an entry

  lemma PutReads(m: C.Layout, s: State, q: nat, cl: nat, p: nat)
    requires q < C.KeyLimit(m) && p < C.KeyLimit(m) && cl < C.VALUES
    ensures var c := Cached(m, Put(m, s, q, cl), p); if p == q then c == cl else c == 0 || c == Cached(m, s, p)
  {
    C.WriteThenRead(m, s.table, q, cl, p);
  }

  /** Writing the class of the span a page belongs to keeps every entry truthful. */
  lemma PutKeepsTruth(m: C.Layout, s: State, id: int, q: nat, other: int, p: int)
    requires HeapOk(m, s.spans, s.pages) && id in s.spans && s.spans[id].Covers(q)
    requires other in s.spans && s.spans[other].Covers(p) && (p != q ==> Truthful(m, s, other, p))
    requires s.spans[id].sizeclass >= 0
    ensures Truthful(m, Put(m, s, q, s.spans[id].sizeclass), other, p)
  {
    PutReads(m, s, q, s.spans[id].sizeclass, p);
    assert other != id ==> Apart(s.spans[id], s.spans[other]);
  }

  lemma PutKeepsInv(m: C.Layout, s: State, id: int, q: nat)
    requires Inv(m, s) && id in s.spans && s.spans[id].Covers(q)
    ensures s.spans[id].sizeclass >= 0 && Inv(m, Put(m, s, q, s.spans[id].sizeclass))
    ensures Truthful(m, Put(m, s, q, s.spans[id].sizeclass), id, q)
  {
    var s' := Put(m, s, q, s.spans[id].sizeclass);
    PutReads(m, s, q, s.spans[id].sizeclass, q);
    forall x, p | x in s.spans && s.spans[x].Covers(p) && Truthful(m, s, x, p)
      ensures Truthful(m, s', x, p)
    {
      PutKeepsTruth(m, s, id, q, x, p);
    }
    forall ptr | ptr in s'.live
      ensures LiveOk(s', ptr)
      ensures s'.spans[s'.live[ptr]].sizeclass == 0 ==> Truthful(m, s', s'.live[ptr], PageOf(ptr))
    {
      assert LiveOk(s, ptr);
    }
    forall x | x in s'.published
      ensures PublishedOk(m, s', x)
    {
      assert PublishedOk(m, s, x);
    }
    forall t | 0 <= t < |s'.threads|
      ensures ThreadOk(m, s', t)
    {
      assert ThreadOk(m, s, t);
      if s.threads[t].Freeing? || s.threads[t].Sizing? {
        assert LiveOk(s, s.threads[t].ptr);
      }
    }
  }

  // ----- a call into the page heap

  ghost predicate Refers(s: State, id: int) {
    || id in s.published
    || (exists ptr :: ptr in s.live && s.live[ptr] == id)
    || (exists t :: 0 <= t < |s.threads| && s.threads[t].Filling? && s.threads[t].id == id)
  }

  /** The page heap may rearrange everything but the spans in use that something still refers to. */
  lemma HeapKeepsInv(m: C.Layout, s: State, spans: SpanMap, pages: PageMap)
    requires Inv(m, s) && HeapOk(m, spans, pages)
    requires forall id :: id in Used(s.spans) && Refers(s, id) ==> id in spans && spans[id] == s.spans[id]
    ensures Inv(m, s.(spans := spans, pages := pages))
  {
    var s' := s.(spans := spans, pages := pages);
    forall ptr | ptr in s'.live
      ensures LiveOk(s', ptr)
      ensures s'.spans[s'.live[ptr]].sizeclass == 0 ==> Truthful(m, s', s'.live[ptr], PageOf(ptr))
    {
      assert LiveOk(s, ptr) && Refers(s, s.live[ptr]);
    }
    forall x | x in s'.published
      ensures PublishedOk(m, s', x)
    {
      assert PublishedOk(m, s, x) && Refers(s, x);
      forall p | s'.spans[x].Covers(p)
        ensures Truthful(m, s', x, p)
      {
        assert Truthful(m, s, x, p);
      }
    }
    forall t | 0 <= t < |s'.threads|
      ensures ThreadOk(m, s', t)
    {
      HeapKeepsThread(m, s, s', t);
    }
  }

  lemma HeapKeepsThread(m: C.Layout, s: State, s': State, t: nat)
    requires t < |s.threads| && ThreadOk(m, s, t) && s' == s.(spans := s'.spans, pages := s'.pages)
    requires forall id :: id in Used(s.spans) && Refers(s, id) ==> id in s'.spans && s'.spans[id] == s.spans[id]
    ensures ThreadOk(m, s', t)
  {
    match s.threads[t]
    case Idle =>
    case Filling(id, done) =>
      assert Refers(s, id);
      forall p | s.spans[id].start <= p < s.spans[id].start + done
        ensures Truthful(m, s', id, p)
      {
        assert Truthful(m, s, id, p);
      }
    case Freeing(ptr, _, _) => assert Refers(s, s.live[ptr]);
    case Sizing(ptr, _) => assert Refers(s, s.live[ptr]);
  }

  // ----- moving a thread

  /** Everything but the thread itself is as before. */
  lemma AtKeepsInv(m: C.Layout, s: State, t: nat, pc: PC)
    requires Inv(m, s) && t < |s.threads|
    requires ThreadOk(m, At(s, t, pc), t)
    requires forall u :: 0 <= u < |s.threads| && u != t ==> Apart2(pc, s.threads[u]) && Apart2(s.threads[u], pc)
    ensures Inv(m, At(s, t, pc))
  {
    var s' := At(s, t, pc);
    forall ptr | ptr in s'.live
      ensures LiveOk(s', ptr)
      ensures s'.spans[s'.live[ptr]].sizeclass == 0 ==> Truthful(m, s', s'.live[ptr], PageOf(ptr))
    {
      assert LiveOk(s, ptr);
    }
    forall x | x in s'.published
      ensures PublishedOk(m, s', x)
    {
      assert PublishedOk(m, s, x);
      forall p | s'.spans[x].Covers(p)
        ensures Truthful(m, s', x, p)
      {
        assert Truthful(m, s, x, p);
      }
    }
    forall u | 0 <= u < |s'.threads|
      ensures ThreadOk(m, s', u)
    {
      if u != t {
        SameThreadOk(m, s, s', u);
      }
    }
  }

  lemma SameThreadOk(m: C.Layout, s: State, s': State, u: nat)
    requires u < |s.threads| && u < |s'.threads| && s'.threads[u] == s.threads[u] && ThreadOk(m, s, u)
    requires s' == s.(threads := s'.threads)
    ensures ThreadOk(m, s', u)
  {
    match s.threads[u]
    case Filling(id, done) =>
      forall p | s.spans[id].start <= p < s.spans[id].start + done
        ensures Truthful(m, s', id, p)
      {
        assert Truthful(m, s, id, p);
      }
    case Freeing(ptr, _, _) => assert LiveOk(s, ptr);
    case Sizing(ptr, _) => assert LiveOk(s, ptr);
    case Idle =>
  }

  // ----- objects come and go

  /** A change of the live objects that is none of this thread's business. */
  ghost predicate Undisturbed(s: State, s': State, pc: PC) {
    match pc
    case Idle => true
    case Filling(id, _) => forall ptr :: ptr in s'.live ==> s'.live[ptr] != id
    case Freeing(ptr, _, _) => ptr in s.live && ptr in s'.live && s'.live[ptr] == s.live[ptr]
    case Sizing(ptr, _) => ptr in s.live && ptr in s'.live && s'.live[ptr] == s.live[ptr]
  }

  lemma LiveKeepsInv(m: C.Layout, s: State, s': State)
    requires Inv(m, s) && s' == s.(live := s'.live)
    requires forall ptr :: ptr in s'.live ==>
               LiveOk(s', ptr) && (s.spans[s'.live[ptr]].sizeclass == 0 ==> Truthful(m, s, s'.live[ptr], PageOf(ptr)))
    requires forall t :: 0 <= t < |s.threads| ==> Undisturbed(s, s', s.threads[t])
    ensures Inv(m, s')
  {
    forall x | x in s'.published
      ensures PublishedOk(m, s', x)
    {
      assert PublishedOk(m, s, x);
      forall p | s'.spans[x].Covers(p)
        ensures Truthful(m, s', x, p)
      {
        assert Truthful(m, s, x, p);
      }
    }
    forall t | 0 <= t < |s'.threads|
      ensures ThreadOk(m, s', t)
    {
      assert ThreadOk(m, s, t);
      if s.threads[t].Filling? {
        var id := s.threads[t].id;
        forall p | s.spans[id].start <= p < s.spans[id].start + s.threads[t].done
          ensures Truthful(m, s', id, p)
        {
          assert Truthful(m, s, id, p);
        }
      }
    }
    forall ptr | ptr in s'.live && s'.spans[s'.live[ptr]].sizeclass == 0
      ensures Truthful(m, s', s'.live[ptr], PageOf(ptr))
    {
      assert Truthful(m, s, s'.live[ptr], PageOf(ptr));
    }
  }

  lemma RemoveLive(m: C.Layout, s: State, ptr: nat)
    requires Inv(m, s) && ptr in s.live && !Busy(s, ptr)
    ensures Inv(m, s.(live := s.live - {ptr}))
  {
    var s' := s.(live := s.live - {ptr});
    forall q | q in s'.live
      ensures LiveOk(s', q)
    {
      assert LiveOk(s, q);
    }
    forall t | 0 <= t < |s.threads|
      ensures Undisturbed(s, s', s.threads[t])
    {
      assert ThreadOk(m, s, t);
    }
    LiveKeepsInv(m, s, s');
  }

  lemma AddLive(m: C.Layout, s: State, ptr: nat, id: int)
    requires Inv(m, s) && !Busy(s, ptr) && id in s.spans
    requires var s' := s.(live := s.live[ptr := id]);
             LiveOk(s', ptr) && (s.spans[id].sizeclass == 0 ==> Truthful(m, s, id, PageOf(ptr)))
    requires forall t :: 0 <= t < |s.threads| && s.threads[t].Filling? ==> s.threads[t].id != id
    ensures Inv(m, s.(live := s.live[ptr := id]))
  {
    var s' := s.(live := s.live[ptr := id]);
    forall q | q in s'.live
      ensures LiveOk(s', q)
    {
      assert q != ptr ==> LiveOk(s, q);
    }
    forall t | 0 <= t < |s.threads|
      ensures Undisturbed(s, s', s.threads[t])
    {
      assert ThreadOk(m, s, t);
    }
    LiveKeepsInv(m, s, s');
  }

  // ----- the steps

  lemma ReferredIsUsed(m: C.Layout, s: State, id: int)
    requires Inv(m, s) && Refers(s, id)
    ensures id in Used(s.spans)
  {
    if id in s.published {
      assert PublishedOk(m, s, id);
    } else if ptr :| ptr in s.live && s.live[ptr] == id {
      assert LiveOk(s, ptr);
    } else {
      var t :| 0 <= t < |s.threads| && s.threads[t].Filling? && s.threads[t].id == id;
      assert ThreadOk(m, s, t);
    }
  }

  lemma NewSmallKeeps(m: C.Layout, s: State, t: nat, spans: SpanMap, pages: PageMap, id: int)
    requires Inv(m, s) && Enabled(m, s, t, NewSmall(spans, pages, id))
    ensures Inv(m, Step(m, s, t, NewSmall(spans, pages, id)))
  {
    assert !Refers(s, id) by {
      if Refers(s, id) {
        ReferredIsUsed(m, s, id);
      }
    }
    UsedKept(s.spans, spans, {id});
    HeapKeepsInv(m, s, spans, pages);
    var s1 := s.(spans := spans, pages := pages);
    forall u | 0 <= u < |s.threads| && s.threads[u].Filling?
      ensures s.threads[u].id != id
    {
    }
    AtKeepsInv(m, s1, t, Filling(id, 0));
  }

  lemma UsedKept(before: SpanMap, after: SpanMap, except: set<int>)
    requires forall id :: id in Used(before) && id !in except ==>
               id in Used(after) && Used(after)[id] == Used(before)[id]
    ensures forall id :: id in Used(before) && id !in except ==> id in after && after[id] == before[id]
  {
  }

  lemma CacheNextKeeps(m: C.Layout, s: State, t: nat)
    requires Inv(m, s) && Enabled(m, s, t, CacheNext)
    ensures Inv(m, Step(m, s, t, CacheNext))
  {
    var Filling(id, done) := s.threads[t];
    assert ThreadOk(m, s, t);
    var q := s.spans[id].start + done;
    PutKeepsInv(m, s, id, q);
    var s1 := Put(m, s, q, s.spans[id].sizeclass);
    FilledOneMore(m, s1, t);
    ApartFromOthers(m, s1, t);
    AtKeepsInv(m, s1, t, Filling(id, done + 1));
    assert Step(m, s, t, CacheNext) == At(s1, t, Filling(id, done + 1));
  }

  lemma FilledOneMore(m: C.Layout, s: State, t: nat)
    requires t < |s.threads| && ThreadOk(m, s, t) && s.threads[t].Filling?
             && s.threads[t].done < s.spans[s.threads[t].id].length
    requires Truthful(m, s, s.threads[t].id, s.spans[s.threads[t].id].start + s.threads[t].done)
    ensures ThreadOk(m, At(s, t, Filling(s.threads[t].id, s.threads[t].done + 1)), t)
  {
    var Filling(id, done) := s.threads[t];
    var s' := At(s, t, Filling(id, done + 1));
    forall p | s.spans[id].start <= p < s.spans[id].start + done + 1
      ensures Truthful(m, s', id, p)
    {
      assert Truthful(m, s, id, p);
    }
  }

  lemma ApartFromOthers(m: C.Layout, s: State, t: nat)
    requires Inv(m, s) && t < |s.threads|
    ensures forall u :: 0 <= u < |s.threads| && u != t ==>
              Apart2(s.threads[t], s.threads[u]) && Apart2(s.threads[u], s.threads[t])
  {
    forall u | 0 <= u < |s.threads| && u != t
      ensures Apart2(s.threads[t], s.threads[u]) && Apart2(s.threads[u], s.threads[t])
    {
      if u < t {
        assert Apart2(s.threads[u], s.threads[t]);
      } else {
        assert Apart2(s.threads[t], s.threads[u]);
      }
    }
  }

  lemma PublishKeeps(m: C.Layout, s: State, t: nat)
    requires Inv(m, s) && Enabled(m, s, t, Publish)
    ensures Inv(m, Step(m, s, t, Publish))
  {
    var id := s.threads[t].id;
    assert ThreadOk(m, s, t);
    ApartFromOthers(m, s, t);
    AtKeepsInv(m, s, t, Idle);
    var s1 := At(s, t, Idle);
    var s' := s1.(published := s.published + {id});
    forall ptr | ptr in s'.live
      ensures LiveOk(s', ptr)
      ensures s'.spans[s'.live[ptr]].sizeclass == 0 ==> Truthful(m, s', s'.live[ptr], PageOf(ptr))
    {
      assert LiveOk(s, ptr);
    }
    forall x | x in s'.published
      ensures PublishedOk(m, s', x)
    {
      assert x != id ==> PublishedOk(m, s, x);
      forall p | s'.spans[x].Covers(p)
        ensures Truthful(m, s', x, p)
      {
        assert Truthful(m, s, x, p);
      }
    }
    forall u | 0 <= u < |s'.threads|
      ensures ThreadOk(m, s', u)
    {
      PublishedThread(m, s, s', t, u, id);
    }
  }

  lemma PublishedThread(m: C.Layout, s: State, s': State, t: nat, u: nat, id: int)
    requires Inv(m, s) && t < |s.threads| && u < |s.threads| && s.threads[t].Filling? && s.threads[t].id == id
    requires s' == At(s, t, Idle).(published := s.published + {id})
    ensures ThreadOk(m, s', u)
  {
    assert ThreadOk(m, s, u) && ThreadOk(m, s, t);
    ApartFromOthers(m, s, t);
    if u != t {
      match s.threads[u]
      case Idle =>
      case Filling(x, done) =>
        assert Apart2(s.threads[u], s.threads[t]);
        forall p | s.spans[x].start <= p < s.spans[x].start + done
          ensures Truthful(m, s', x, p)
        {
          assert Truthful(m, s, x, p);
        }
      case Freeing(ptr, _, _) => assert LiveOk(s, ptr);
      case Sizing(ptr, _) => assert LiveOk(s, ptr);
    }
  }

  lemma AllocateSmallKeeps(m: C.Layout, s: State, t: nat, ptr: nat, id: int)
    requires Inv(m, s) && Enabled(m, s, t, AllocateSmall(ptr, id))
    ensures Inv(m, Step(m, s, t, AllocateSmall(ptr, id)))
  {
    assert PublishedOk(m, s, id);
    NotBusy(m, s, ptr);
    forall u | 0 <= u < |s.threads| && s.threads[u].Filling?
      ensures s.threads[u].id != id
    {
      assert ThreadOk(m, s, u);
    }
    AddLive(m, s, ptr, id);
  }

  lemma NotBusy(m: C.Layout, s: State, ptr: nat)
    requires Inv(m, s) && ptr !in s.live
    ensures !Busy(s, ptr)
  {
    forall t | 0 <= t < |s.threads| && (s.threads[t].Freeing? || s.threads[t].Sizing?)
      ensures s.threads[t].ptr != ptr
    {
      assert ThreadOk(m, s, t);
    }
  }

  lemma AllocateLargeKeeps(m: C.Layout, s: State, t: nat, spans: SpanMap, pages: PageMap, id: int)
    requires Inv(m, s) && Enabled(m, s, t, AllocateLarge(spans, pages, id))
    ensures Inv(m, Step(m, s, t, AllocateLarge(spans, pages, id)))
    ensures spans[id].start >= 0 && !Busy(s, spans[id].start * PAGE_SIZE)
  {
    if Refers(s, id) {
      ReferredIsUsed(m, s, id);
    }
    UsedKept(s.spans, spans, {id});
    HeapKeepsInv(m, s, spans, pages);
    var s1, q := s.(spans := spans, pages := pages), spans[id].start;
    PutKeepsInv(m, s1, id, q);
    var s2, ptr := Put(m, s1, q, 0), q * PAGE_SIZE;
    assert PageOf(ptr) == q;
    FreshStart(m, s1, id, ptr);
    NotBusy(m, s2, ptr);
    assert !Busy(s, ptr) by {
      assert s2.threads == s.threads;
      assert Busy(s, ptr) ==> Busy(s2, ptr);
    }
    AddLive(m, s2, ptr, id);
  }

  /** The start of a span that nothing refers to is not a live object. */
  lemma FreshStart(m: C.Layout, s: State, id: int, ptr: nat)
    requires Inv(m, s) && id in s.spans && !Refers(s, id) && s.spans[id].Covers(PageOf(ptr))
    ensures ptr !in s.live
  {
    forall q | q in s.live
      ensures PageOf(q) != PageOf(ptr)
    {
      assert LiveOk(s, q) && s.live[q] != id;
      assert Apart(s.spans[s.live[q]], s.spans[id]);
    }
  }

  lemma StartKeeps(m: C.Layout, s: State, t: nat, ptr: nat, a: Action)
    requires Inv(m, s) && (a == StartFree(ptr) || a == StartSize(ptr)) && Enabled(m, s, t, a)
    ensures Inv(m, Step(m, s, t, a))
  {
    Coherent(m, s, ptr);
    assert LiveOk(s, ptr);
    var s' := Step(m, s, t, a);
    if s' != s {
      assert LiveOk(s', ptr);
      AtKeepsInv(m, s, t, s'.threads[t]);
    }
  }

  /** The end of a free of a small object, and of a size query: the entry is written and the thread goes on. */
  lemma WriteBack(m: C.Layout, s: State, t: nat, put: bool) returns (s1: State)
    requires Inv(m, s) && t < |s.threads| && (s.threads[t].Freeing? || s.threads[t].Sizing?)
    ensures s1 == At(if put then Put(m, s, PageOf(s.threads[t].ptr), s.threads[t].cl) else s, t, Idle)
    ensures Inv(m, s1) && s.threads[t].ptr in s1.live
    ensures s.threads[t].Freeing? ==> !Busy(s1, s.threads[t].ptr)
  {
    var ptr := s.threads[t].ptr;
    assert ThreadOk(m, s, t);
    var s0 := s;
    if put {
      PutKeepsInv(m, s, s.live[ptr], PageOf(ptr));
      s0 := Put(m, s, PageOf(ptr), s.threads[t].cl);
    }
    ApartFromOthers(m, s0, t);
    AtKeepsInv(m, s0, t, Idle);
    s1 := At(s0, t, Idle);
  }

  /** The page heap deletes a span nothing refers to. */
  lemma HeapDeletes(m: C.Layout, s: State, spans: SpanMap, pages: PageMap, id: int)
    requires Inv(m, s) && HeapOk(m, spans, pages) && Used(spans) == Used(s.spans) - {id} && !Refers(s, id)
    ensures Inv(m, s.(spans := spans, pages := pages))
  {
    UsedKept(s.spans, spans, {id});
    HeapKeepsInv(m, s, spans, pages);
  }

  /** The object is gone, and with it the last reference to its span. */
  lemma DropLarge(m: C.Layout, s: State, t: nat) returns (s': State)
    requires Inv(m, s) && t < |s.threads| && s.threads[t].Freeing? && s.threads[t].cl == 0
    ensures var ptr := s.threads[t].ptr;
            && ptr in s.live && PageOf(ptr) in s.pages && s.pages[PageOf(ptr)] == s.live[ptr]
            && s' == At(Put(m, s, PageOf(ptr), 0), t, Idle).(live := s.live - {ptr})
            && Inv(m, s') && !Refers(s', s.live[ptr])
  {
    var ptr := s.threads[t].ptr;
    assert ThreadOk(m, s, t);
    LiveFacts(m, s, ptr);
    var s1 := WriteBack(m, s, t, true);
    RemoveLive(m, s1, ptr);
    s' := s1.(live := s1.live - {ptr});
    NothingElse(m, s1, s', ptr, s.live[ptr]);
  }

  lemma FinishFreeLargeKeeps(m: C.Layout, s: State, t: nat, spans: SpanMap, pages: PageMap)
    requires Inv(m, s) && Enabled(m, s, t, FinishFreeLarge(spans, pages))
    ensures Inv(m, Step(m, s, t, FinishFreeLarge(spans, pages)))
  {
    var s' := DropLarge(m, s, t);
    HeapDeletes(m, s', spans, pages, s.live[s.threads[t].ptr]);
    assert Step(m, s, t, FinishFreeLarge(spans, pages)) == s'.(spans := spans, pages := pages);
  }

  /** Nothing but its one object refers to the span of a large object. */
  lemma NothingElse(m: C.Layout, s: State, s': State, ptr: nat, id: int)
    requires Inv(m, s) && ptr in s.live && s.live[ptr] == id && s.spans[id].sizeclass == 0
    requires s' == s.(live := s.live - {ptr})
    ensures !Refers(s', id)
  {
    assert LiveOk(s, ptr);
    forall q | q in s'.live
      ensures s'.live[q] != id
    {
      assert LiveOk(s, q);
    }
    forall t | 0 <= t < |s.threads| && s.threads[t].Filling?
      ensures s.threads[t].id != id
    {
      assert ThreadOk(m, s, t);
    }
  }

  /** A span without live objects is taken off its list. */
  lemma Unpublish(m: C.Layout, s: State, id: int)
    requires Inv(m, s) && id in s.published && forall ptr :: ptr in s.live ==> s.live[ptr] != id
    ensures var s' := s.(published := s.published - {id}); Inv(m, s') && !Refers(s', id)
  {
    var s' := s.(published := s.published - {id});
    forall ptr | ptr in s'.live
      ensures LiveOk(s', ptr)
      ensures s'.spans[s'.live[ptr]].sizeclass == 0 ==> Truthful(m, s', s'.live[ptr], PageOf(ptr))
    {
      assert LiveOk(s, ptr);
    }
    forall x | x in s'.published
      ensures PublishedOk(m, s', x)
    {
      assert PublishedOk(m, s, x);
      forall p | s'.spans[x].Covers(p)
        ensures Truthful(m, s', x, p)
      {
        assert Truthful(m, s, x, p);
      }
    }
    forall u | 0 <= u < |s'.threads|
      ensures ThreadOk(m, s', u) && (s.threads[u].Filling? ==> s.threads[u].id != id)
    {
      assert ThreadOk(m, s, u);
      UnpublishedThread(m, s, u, id);
    }
  }

  lemma DeleteSmallKeeps(m: C.Layout, s: State, t: nat, spans: SpanMap, pages: PageMap, id: int)
    requires Inv(m, s) && Enabled(m, s, t, DeleteSmall(spans, pages, id))
    ensures Inv(m, Step(m, s, t, DeleteSmall(spans, pages, id)))
  {
    var s' := s.(published := s.published - {id});
    Unpublish(m, s, id);
    HeapDeletes(m, s', spans, pages, id);
    assert Step(m, s, t, DeleteSmall(spans, pages, id)) == s'.(spans := spans, pages := pages);
  }

  lemma UnpublishedThread(m: C.Layout, s: State, u: nat, id: int)
    requires u < |s.threads| && ThreadOk(m, s, u) && forall ptr :: ptr in s.live ==> s.live[ptr] != id
    ensures ThreadOk(m, s.(published := s.published - {id}), u)
  {
    var s' := s.(published := s.published - {id});
    match s.threads[u]
    case Idle =>
    case Filling(x, done) =>
      forall p | s.spans[x].start <= p < s.spans[x].start + done
        ensures Truthful(m, s', x, p)
      {
        assert Truthful(m, s, x, p);
      }
    case Freeing(ptr, _, _) => assert LiveOk(s', ptr);
    case Sizing(ptr, _) => assert LiveOk(s', ptr);
  }

  /** Every step of every thread keeps the invariant. */
  lemma StepKeepsInv(m: C.Layout, s: State, t: nat, a: Action)
    requires Inv(m, s) && Enabled(m, s, t, a)
    ensures Inv(m, Step(m, s, t, a))
  {
    match a
    case NewSmall(spans, pages, id) => NewSmallKeeps(m, s, t, spans, pages, id);
    case CacheNext => CacheNextKeeps(m, s, t);
    case Publish => PublishKeeps(m, s, t);
    case AllocateSmall(ptr, id) => AllocateSmallKeeps(m, s, t, ptr, id);
    case AllocateLarge(spans, pages, id) => AllocateLargeKeeps(m, s, t, spans, pages, id);
    case StartFree(ptr) => StartKeeps(m, s, t, ptr, a);
    case FinishFreeSmall =>
      var s1 := WriteBack(m, s, t, s.threads[t].put);
      RemoveLive(m, s1, s.threads[t].ptr);
    case FinishFreeLarge(spans, pages) => FinishFreeLargeKeeps(m, s, t, spans, pages);
    case DeleteSmall(spans, pages, id) => DeleteSmallKeeps(m, s, t, spans, pages, id);
    case StartSize(ptr) => StartKeeps(m, s, t, ptr, a);
    case FinishSize =>
      var s1 := WriteBack(m, s, t, true);
    case Scavenge(spans, pages) =>
      UsedKept(s.spans, spans, {});
      HeapKeepsInv(m, s, spans, pages);
  }

  // ----- runs

  datatype Move = Move(t: nat, a: Action)

  ghost predicate Initial(m: C.Layout, s: State) {
    && s.spans == map[] && s.pages == map[] && s.live == map[] && s.published == {}
    && (forall t :: 0 <= t < |s.threads| ==> s.threads[t].Idle?)
    && C.Cleared(m, s.table, 0)
  }

  ghost predicate IsRun(m: C.Layout, states: seq<State>, moves: seq<Move>) {
    && |states| == |moves| + 1 && Initial(m, states[0])
    && forall i :: 0 <= i < |moves| ==>
         Enabled(m, states[i], moves[i].t, moves[i].a) && states[i + 1] == Step(m, states[i], moves[i].t, moves[i].a)
  }

  /** In every state of every run, for every live object, the cache yields 0 or the size class of the span the page
      map gives for the object's page, and so freeing it is dispatched to the right class. */
  lemma {:induction false} RunIsCoherent(m: C.Layout, states: seq<State>, moves: seq<Move>, i: nat)
    requires IsRun(m, states, moves) && i < |states|
    ensures Inv(m, states[i])
    ensures forall ptr :: ptr in states[i].live ==>
              var s, p := states[i], PageOf(ptr);
              && p in s.pages && s.pages[p] in s.spans
              && (Cached(m, s, p) == 0 || Cached(m, s, p) == s.spans[s.pages[p]].sizeclass)
              && ClassOf(m, s, ptr) == s.spans[s.live[ptr]].sizeclass
  {
    if i == 0 {
    } else {
      RunIsCoherent(m, states, moves, i - 1);
      StepKeepsInv(m, states[i - 1], moves[i - 1].t, moves[i - 1].a);
    }
    forall ptr | ptr in states[i].live
      ensures var s, p := states[i], PageOf(ptr);
              && p in s.pages && s.pages[p] in s.spans
              && (Cached(m, s, p) == 0 || Cached(m, s, p) == s.spans[s.pages[p]].sizeclass)
              && ClassOf(m, s, ptr) == s.spans[s.live[ptr]].sizeclass
    {
      Coherent(m, states[i], ptr);
    }
  }

  /** The cache is of use: in every run, a free that missed and a size query that missed leave the class of the object's
      span in the entry of its page. */
  lemma MissesAreRepaired(m: C.Layout, states: seq<State>, moves: seq<Move>, i: nat)
    requires IsRun(m, states, moves) && i < |moves|
    ensures var s, s', t, pc := states[i], states[i + 1], moves[i].t, states[i].threads[moves[i].t];
            match moves[i].a
            case StartFree(ptr) =>
              && ptr in s.live && s.live[ptr] in s.spans && s.spans[s.live[ptr]].sizeclass >= 0
              && s'.threads[t] == Freeing(ptr, s.spans[s.live[ptr]].sizeclass, Cached(m, s, ptr / 8192) == 0)
            case FinishFreeSmall =>
              && pc.ptr in s.live && s.live[pc.ptr] in s.spans
              && (pc.put ==> Cached(m, s', pc.ptr / 8192) == s.spans[s.live[pc.ptr]].sizeclass)
            case StartSize(ptr) =>
              && ptr in s.live && s.live[ptr] in s.spans && s.spans[s.live[ptr]].sizeclass >= 0
              && s' == if Cached(m, s, ptr / 8192) == 0 && s.spans[s.live[ptr]].sizeclass > 0
                       then At(s, t, Sizing(ptr, s.spans[s.live[ptr]].sizeclass)) else s
            case FinishSize =>
              && pc.ptr in s.live && s.live[pc.ptr] in s.spans
              && Cached(m, s', pc.ptr / 8192) == s.spans[s.live[pc.ptr]].sizeclass
            case _ => true
  {
    var s, t := states[i], moves[i].t;
    RunIsCoherent(m, states, moves, i);
    match moves[i].a
    case StartFree(ptr) => Coherent(m, s, ptr);
    case StartSize(ptr) => Coherent(m, s, ptr);
    case FinishFreeSmall => WrittenFor(m, s, t);
    case FinishSize => WrittenFor(m, s, t);
    case _ =>
  }

  /** In every run, filling a span writes the class at each of its pages in turn, and the entry of a large span
      reads 0 when it is handed out and when it is freed. */
  lemma EntriesAreWritten(m: C.Layout, states: seq<State>, moves: seq<Move>, i: nat)
    requires IsRun(m, states, moves) && i < |moves|
    ensures var s, s', pc := states[i], states[i + 1], states[i].threads[moves[i].t];
            match moves[i].a
            case CacheNext => Cached(m, s', s.spans[pc.id].start + pc.done) == s.spans[pc.id].sizeclass
            case AllocateLarge(spans, _, id) => spans[id].start >= 0 && Cached(m, s', spans[id].start) == 0
            case FinishFreeLarge(_, _) => Cached(m, s', pc.ptr / 8192) == 0
            case _ => true
  {
    var s, t := states[i], moves[i].t;
    RunIsCoherent(m, states, moves, i);
    assert ThreadOk(m, s, t);
    match moves[i].a
    case CacheNext =>
      var id, p := s.threads[t].id, s.spans[s.threads[t].id].start + s.threads[t].done;
      PutReads(m, s, p, s.spans[id].sizeclass, p);
    case AllocateLarge(spans, _, id) => PutReads(m, s, spans[id].start, 0, spans[id].start);
    case FinishFreeLarge(_, _) =>
      LiveFacts(m, s, s.threads[t].ptr);
      PutReads(m, s, PageOf(s.threads[t].ptr), 0, PageOf(s.threads[t].ptr));
    case _ =>
  }

  lemma WrittenFor(m: C.Layout, s: State, t: nat)
    requires Inv(m, s) && t < |s.threads| && (s.threads[t].Freeing? || s.threads[t].Sizing?)
    ensures var pc := s.threads[t];
            && pc.ptr in s.live && s.live[pc.ptr] in s.spans
            && Cached(m, Put(m, s, PageOf(pc.ptr), pc.cl), PageOf(pc.ptr)) == pc.cl == s.spans[s.live[pc.ptr]].sizeclass
  {
    assert ThreadOk(m, s, t);
    LiveFacts(m, s, s.threads[t].ptr);
    PutReads(m, s, PageOf(s.threads[t].ptr), s.threads[t].cl, PageOf(s.threads[t].ptr));
  }

  /** Once a span has been filled, any of its objects can be allocated. */
  lemma PublishAndAllocate(m: C.Layout, s: State, t: nat, ptr: nat) returns (s1: State, s2: State)
    requires Inv(m, s) && Enabled(m, s, t, Publish) && s.spans[s.threads[t].id].Covers(ptr / 8192) && ptr !in s.live
    ensures var id := s.threads[t].id;
            && s1 == Step(m, s, t, Publish)
            && Enabled(m, s1, t, AllocateSmall(ptr, id)) && s2 == Step(m, s1, t, AllocateSmall(ptr, id))
            && Inv(m, s2) && s2.live == s.live[ptr := id] && !Busy(s2, ptr)
            && t < |s2.threads| && s2.threads[t].Idle? && s2.spans == s.spans && s.spans[id].sizeclass > 0
  {
    s1 := PublishStep(m, s, t);
    s2 := AllocateStep(m, s1, t, ptr, s.threads[t].id);
  }

  lemma PublishStep(m: C.Layout, s: State, t: nat) returns (s1: State)
    requires Inv(m, s) && Enabled(m, s, t, Publish)
    ensures s1 == Step(m, s, t, Publish) && Inv(m, s1) && s1.live == s.live && s1.spans == s.spans
    ensures t < |s1.threads| && s1.threads[t].Idle? && s.threads[t].id in s1.published
    ensures s.spans[s.threads[t].id].sizeclass > 0
  {
    assert ThreadOk(m, s, t);
    s1 := Step(m, s, t, Publish);
    PublishKeeps(m, s, t);
  }

  lemma AllocateStep(m: C.Layout, s: State, t: nat, ptr: nat, id: int) returns (s1: State)
    requires Inv(m, s) && Enabled(m, s, t, AllocateSmall(ptr, id))
    ensures s1 == Step(m, s, t, AllocateSmall(ptr, id)) && Inv(m, s1) && s1.live == s.live[ptr := id]
    ensures s1.spans == s.spans && s1.threads == s.threads && !Busy(s1, ptr)
  {
    s1 := Step(m, s, t, AllocateSmall(ptr, id));
    AllocateSmallKeeps(m, s, t, ptr, id);
    NotBusy(m, s, ptr);
    assert Busy(s1, ptr) ==> Busy(s, ptr);
  }

  /** A live object of a span of small objects can be freed, and the free works with the class of the span. */
  lemma FreeLive(m: C.Layout, s: State, t: nat, ptr: nat) returns (s1: State, s2: State)
    requires Inv(m, s) && t < |s.threads| && s.threads[t].Idle? && ptr in s.live && !Busy(s, ptr)
    requires s.live[ptr] in s.spans && s.spans[s.live[ptr]].sizeclass > 0
    ensures && Enabled(m, s, t, StartFree(ptr)) && s1 == Step(m, s, t, StartFree(ptr))
            && t < |s1.threads| && s1.threads[t].Freeing? && s1.threads[t].cl == s.spans[s.live[ptr]].sizeclass
            && Enabled(m, s1, t, FinishFreeSmall) && s2 == Step(m, s1, t, FinishFreeSmall) && s2.live == s.live - {ptr}
  {
    Coherent(m, s, ptr);
    s1 := Step(m, s, t, StartFree(ptr));
    s2 := Step(m, s1, t, FinishFreeSmall);
  }

  /** Likewise a large span is allocated and then freed as such, whatever the cache held for its first page before. */
  lemma LargeRoundTrip(m: C.Layout, s: State, t: nat, spans: SpanMap, pages: PageMap, id: int)
    returns (s1: State, s2: State)
    requires Inv(m, s) && Enabled(m, s, t, AllocateLarge(spans, pages, id))
    ensures var ptr := spans[id].start * 8192;
            && ptr >= 0 && s1 == Step(m, s, t, AllocateLarge(spans, pages, id))
            && Enabled(m, s1, t, StartFree(ptr)) && s2 == Step(m, s1, t, StartFree(ptr))
            && s2.threads[t] == Freeing(ptr, 0, true)
  {
    var a := AllocateLarge(spans, pages, id);
    s1 := Step(m, s, t, a);
    AllocateLargeKeeps(m, s, t, spans, pages, id);
    var ptr := spans[id].start * 8192;
    PutReads(m, s, spans[id].start, 0, spans[id].start);
    Coherent(m, s1, ptr);
    assert Busy(s1, ptr) ==> Busy(s, ptr);
    s2 := Step(m, s1, t, StartFree(ptr));
  }
}
