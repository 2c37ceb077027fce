/** The free lists of the page heap and its books, as relations between values. */
module FreeLists {
  import opened Common
  import opened Spans

  const MAX_PAGES: int := 128

  /** Lists of spans by length; the last one holds all spans of MAX_PAGES pages or more. */
  type Lists = seq<seq<int>>

  function ListIndex(length: int): int { if length < MAX_PAGES then length else MAX_PAGES }

  ghost predicate OnList(spans: SpanMap, id: int, l: Location, i: int) {
    id in spans && spans[id].location == l && ListIndex(spans[id].length) == i
  }

  /** Each span at location l is on exactly the list for its length, once, and nothing else is on any list. */
  ghost predicate Listed(spans: SpanMap, lists: Lists, l: Location) {
    && |lists| == MAX_PAGES + 1
    && (forall i :: 0 <= i <= MAX_PAGES ==> Distinct(lists[i]))
    && forall i, id {:trigger id in lists[i]} {:trigger OnList(spans, id, l, i)} ::
         0 <= i <= MAX_PAGES ==> (id in lists[i] <==> OnList(spans, id, l, i))
  }

  lemma LinkListed(spans: SpanMap, lists: Lists, l: Location, id: int)
    requires id in spans && spans[id].location == l && spans[id].length >= 1
    requires Listed(spans - {id}, lists, l)
    ensures var i := ListIndex(spans[id].length); Listed(spans, lists[i := [id] + lists[i]], l)
  {
    var i := ListIndex(spans[id].length);
    var after := lists[i := [id] + lists[i]];
    assert !OnList(spans - {id}, id, l, i);
    forall j, x | 0 <= j <= MAX_PAGES
      ensures x in after[j] <==> OnList(spans, x, l, j)
    {
      assert x in lists[j] <==> OnList(spans - {id}, x, l, j);
    }
  }

  lemma UnlinkListed(spans: SpanMap, lists: Lists, l: Location, id: int)
    requires id in spans && spans[id].location == l && spans[id].length >= 1
    requires Listed(spans, lists, l)
    ensures var i := ListIndex(spans[id].length);
            id in lists[i] && Listed(spans - {id}, lists[i := Unlink(lists[i], id)], l)
  {
    var i := ListIndex(spans[id].length);
    UnlinkMembers(lists[i], id);
    var after := lists[i := Unlink(lists[i], id)];
    assert OnList(spans, id, l, i);
    forall j, x | 0 <= j <= MAX_PAGES
      ensures x in after[j] <==> OnList(spans - {id}, x, l, j)
    {
      assert x in lists[j] <==> OnList(spans, x, l, j);
    }
  }

  /** The lists of one location do not notice a span at another. */
  lemma ListedElsewhere(spans: SpanMap, spans': SpanMap, lists: Lists, l: Location)
    requires Listed(spans, lists, l)
    requires forall id :: (id in spans && spans[id].location == l) <==> (id in spans' && spans'[id].location == l)
    requires forall id :: id in spans && id in spans' && spans[id].location == l ==>
               spans[id].length == spans'[id].length
    ensures Listed(spans', lists, l)
  {
    forall j, x | 0 <= j <= MAX_PAGES
      ensures x in lists[j] <==> OnList(spans', x, l, j)
    {
      assert x in lists[j] <==> OnList(spans, x, l, j);
    }
  }

  datatype Stats = Stats(system: int, free: int, unmapped: int, committed: int)

  /** The books balance. listed are the spans that are on lists, or in use; leaked pages were obtained from the
      system but could not be entered in the page map. */
  ghost predicate Balanced(spans: SpanMap, listed: SpanMap, st: Stats, leaked: int) {
    && st.free == PAGE_SIZE * PagesAt(listed, Normal)
    && st.unmapped == PAGE_SIZE * PagesAt(listed, Returned)
    && st.committed == st.system - PAGE_SIZE * PagesAt(spans, Returned)
    && st.system == PAGE_SIZE * (PagesAt(spans, InUse) + PagesAt(spans, Normal) + PagesAt(spans, Returned) + leaked)
  }

  /** Entering or withdrawing a span of the given location and length in the books. */
  function Credit(st: Stats, l: Location, length: int): Stats {
    match l
    case InUse => st
    case Normal => st.(free := st.free + PAGE_SIZE * length)
    case Returned => st.(unmapped := st.unmapped + PAGE_SIZE * length)
  }

  lemma BalancedLink(spans: SpanMap, id: int, st: Stats, leaked: int)
    requires id in spans && Balanced(spans, spans - {id}, st, leaked)
    ensures Balanced(spans, spans, Credit(st, spans[id].location, spans[id].length), leaked)
  {
    PagesWithout(spans, Normal, id);
    PagesWithout(spans, Returned, id);
  }

  lemma BalancedUnlink(spans: SpanMap, listed: SpanMap, id: int, st: Stats, leaked: int)
    requires id in listed && Balanced(spans, listed, st, leaked)
    ensures Balanced(spans, listed - {id}, Credit(st, listed[id].location, -listed[id].length), leaked)
  {
    PagesWithout(listed, Normal, id);
    PagesWithout(listed, Returned, id);
  }

  lemma BalancedJoin(spans: SpanMap, id: int, gone: int, st: Stats, leaked: int)
    requires id in spans && gone in spans && id != gone && spans[id].location == spans[gone].location
    requires Balanced(spans, spans - {id} - {gone}, st, leaked)
    ensures var after := Join(spans, id, gone); Balanced(after, after - {id}, st, leaked)
  {
    JoinPages(spans, id, gone, InUse);
    JoinPages(spans, id, gone, Normal);
    JoinPages(spans, id, gone, Returned);
    assert Join(spans, id, gone) - {id} == spans - {id} - {gone};
  }

  lemma BalancedCut(spans: SpanMap, id: int, n: int, rest: int, st: Stats, leaked: int)
    requires id in spans && rest !in spans && Balanced(spans, spans - {id}, st, leaked)
    ensures var cut := Cut(spans, id, n, rest); Balanced(cut, cut - {id} - {rest}, st, leaked)
  {
    CutPagesAt(spans, id, n, rest, InUse);
    CutPagesAt(spans, id, n, rest, Normal);
    CutPagesAt(spans, id, n, rest, Returned);
    assert Cut(spans, id, n, rest) - {id} - {rest} == spans - {id};
  }

  /** Putting an unlisted free span in use; a returned one has to be committed again. */
  lemma BalancedCommit(spans: SpanMap, listed: SpanMap, id: int, st: Stats, leaked: int)
    requires id in spans && id !in listed && spans[id].location != InUse && Balanced(spans, listed, st, leaked)
    ensures var s := spans[id].(location := InUse);
            var bytes := if spans[id].location == Returned then PAGE_SIZE * s.length else 0;
            Balanced(spans[id := s], listed[id := s], st.(committed := st.committed + bytes), leaked)
  {
    var s := spans[id].(location := InUse);
    assert listed - {id} == listed;
    PagesWith(listed, Normal, id, s);
    PagesWith(listed, Returned, id, s);
    BalancedRelabel(spans, id, s);
  }

  lemma BalancedRelabel(spans: SpanMap, id: int, s: Span)
    requires id in spans
    ensures forall l :: PagesAt(spans[id := s], l) == PagesAt(spans, l) - Weight(spans[id], l) + Weight(s, l)
  {
    forall l
      ensures PagesAt(spans[id := s], l) == PagesAt(spans, l) - Weight(spans[id], l) + Weight(s, l)
    {
      PagesWithout(spans, l, id);
      PagesWith(spans, l, id, s);
    }
  }

  /** Unmapped and committed bytes make up all the memory obtained from the system. */
  lemma BalancedTotal(spans: SpanMap, st: Stats, leaked: int)
    requires Balanced(spans, spans, st, leaked)
    ensures st.unmapped + st.committed == st.system
  {
  }

  /** There are free bytes exactly when some normal list is not empty. */
  lemma FreeBytesIffListed(spans: SpanMap, normal: Lists, st: Stats, leaked: int)
    requires WellFormed(spans) && Listed(spans, normal, Normal) && Balanced(spans, spans, st, leaked)
    ensures st.free > 0 <==> exists i :: 0 <= i <= MAX_PAGES && normal[i] != []
    ensures st.free >= 0 && st.unmapped >= 0
  {
    PagesBounds(spans, Normal);
    PagesBounds(spans, Returned);
    if i :| 0 <= i <= MAX_PAGES && normal[i] != [] {
      assert normal[i][0] in normal[i];
      assert OnList(spans, normal[i][0], Normal, i);
    } else {
      forall id | id in spans
        ensures spans[id].location != Normal
      {
        assert !OnList(spans, id, Normal, ListIndex(spans[id].length));
      }
      PagesZero(spans, Normal);
    }
  }
}
