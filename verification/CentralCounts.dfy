/** The counters of the central lists agree with the lists, whatever the interleaving. */
module CentralCounts {
  import opened Common
  import opened Central
  import opened CentralLocks
  import opened CentralObjects

  type SpanMap = map<int, CSpan>

  function FreeCount(spans: SpanMap, id: int): nat { if id in spans then |spans[id].free| else 0 }

  /** Free objects in the listed spans. */
  ghost function FreeObjects(spans: SpanMap, ids: seq<int>): int {
    if ids == [] then 0 else FreeCount(spans, ids[0]) + FreeObjects(spans, ids[1..])
  }

  /** The spans of class cl with free objects are on one list, those without on the other, and the counters say
      how many spans and how many free objects there are. */
  ghost predicate ListOk(spans: SpanMap, l: List, cl: nat) {
    && Distinct(l.nonempty) && Distinct(l.empty)
    && (forall id :: id in l.nonempty ==> id in spans && spans[id].cl == cl && spans[id].free != [])
    && (forall id :: id in l.empty ==> id in spans && spans[id].cl == cl && spans[id].free == [])
    && l.numSpans == |l.nonempty| + |l.empty|
    && l.counter == FreeObjects(spans, l.nonempty)
  }

  predicate OnList(l: List, id: int) { id in l.nonempty || id in l.empty }

  // ----- sums over a list

  lemma {:induction false} SumSame(spans: SpanMap, spans': SpanMap, ids: seq<int>)
    requires forall id :: id in ids ==> FreeCount(spans', id) == FreeCount(spans, id)
    ensures FreeObjects(spans', ids) == FreeObjects(spans, ids)
  {
    if ids == [] {
    } else {
      SumSame(spans, spans', ids[1..]);
    }
  }

  lemma {:induction false} UnlinkOk(spans: SpanMap, ids: seq<int>, id: int)
    requires Distinct(ids) && id in ids
    ensures var rest := Unlink(ids, id);
            && Distinct(rest) && |rest| == |ids| - 1
            && (forall x :: x in rest <==> x in ids && x != id)
            && FreeObjects(spans, rest) == FreeObjects(spans, ids) - FreeCount(spans, id)
  {
    var h, tl := ids[0], ids[1..];
    assert ids == [h] + tl;
    assert h !in tl by {
      assert forall k :: 0 <= k < |tl| ==> tl[k] == ids[k + 1];
    }
    if h == id {
    } else {
      UnlinkOk(spans, tl, id);
      var rest := Unlink(tl, id);
      assert Unlink(ids, id) == [h] + rest && ([h] + rest)[1..] == rest;
      assert h !in rest;
    }
  }

  lemma PrependOk(spans: SpanMap, ids: seq<int>, id: int)
    requires Distinct(ids) && id !in ids
    ensures Distinct([id] + ids) && FreeObjects(spans, [id] + ids) == FreeCount(spans, id) + FreeObjects(spans, ids)
  {
    assert ([id] + ids)[1..] == ids;
  }

  // ----- what one step does to the list it works on

  /** A span that is not on the list may change freely. */
  lemma ListUnaffected(spans: SpanMap, spans': SpanMap, l: List, cl: nat, id: int)
    requires ListOk(spans, l, cl) && !OnList(l, id)
    requires forall x :: x != id ==> (x in spans <==> x in spans')
    requires forall x :: x != id && x in spans ==> spans'[x] == spans[x]
    ensures ListOk(spans', l, cl)
  {
    SumSame(spans, spans', l.nonempty);
  }

  /** The list after an object comes back to span id, counter apart. */
  function Noticed(l: List, sp: CSpan, id: int): List {
    if sp.free == [] then l.(empty := Unlink(l.empty, id), nonempty := [id] + l.nonempty) else l
  }

  /** Making a span with no free objects nonempty before it has one: the only inconsistency is that one span. */
  lemma NoticedOk(spans: SpanMap, spans': SpanMap, l: List, cl: nat, id: int, o: Obj)
    requires ListOk(spans, l, cl) && id in spans && OnList(l, id)
    requires spans' == spans[id := spans[id].(free := [o] + spans[id].free, refcount := spans[id].refcount - 1)]
    ensures ListOk(spans', Noticed(l, spans[id], id).(counter := l.counter + 1), cl)
    ensures OnList(Noticed(l, spans[id], id), id)
  {
    var sp, l1 := spans[id], Noticed(l, spans[id], id);
    if sp.free == [] {
      UnlinkOk(spans, l.empty, id);
      SumSame(spans, spans', l.nonempty);
      PrependOk(spans', l.nonempty, id);
    } else {
      UnlinkOk(spans, l.nonempty, id);
      UnlinkOk(spans', l.nonempty, id);
      SumSame(spans, spans', Unlink(l.nonempty, id));
    }
  }

  /** The last object is back and the span leaves the list. */
  lemma DoomedOk(spans: SpanMap, l: List, cl: nat, id: int)
    requires ListOk(spans, l, cl) && id in spans && OnList(l, id)
    ensures var l1 := Noticed(l, spans[id], id);
            ListOk(spans - {id}, l1.(nonempty := Unlink(l1.nonempty, id), numSpans := l.numSpans - 1,
                                     counter := l.counter - |spans[id].free|), cl)
    ensures var l1 := Noticed(l, spans[id], id);
            forall x :: OnList(l1.(nonempty := Unlink(l1.nonempty, id)), x) <==> OnList(l, x) && x != id
  {
    if spans[id].free == [] {
      DoomedEmpty(spans, l, cl, id);
    } else {
      UnlinkOk(spans, l.nonempty, id);
      assert Noticed(l, spans[id], id) == l;
      SumSame(spans, spans - {id}, Unlink(l.nonempty, id));
    }
  }

  lemma DoomedEmpty(spans: SpanMap, l: List, cl: nat, id: int)
    requires ListOk(spans, l, cl) && id in spans && OnList(l, id) && spans[id].free == []
    ensures var l1 := Noticed(l, spans[id], id);
            && Unlink(l1.nonempty, id) == l.nonempty && l1.empty == Unlink(l.empty, id)
            && ListOk(spans - {id}, l.(empty := Unlink(l.empty, id), numSpans := l.numSpans - 1), cl)
            && forall x :: x in Unlink(l.empty, id) <==> x in l.empty && x != id
  {
    UnlinkOk(spans, l.empty, id);
    SumSame(spans, spans - {id}, l.nonempty);
    assert ([id] + l.nonempty)[1..] == l.nonempty;
  }

  /** k objects are taken from the first span of the list. */
  lemma TakenOk(spans: SpanMap, l: List, cl: nat, k: nat)
    requires ListOk(spans, l, cl) && l.nonempty != [] && l.nonempty[0] in l.nonempty
    requires k <= |spans[l.nonempty[0]].free|
    ensures var id := l.nonempty[0]; var sp := spans[id];
            var l1 := if k == |sp.free| then l.(nonempty := l.nonempty[1..], empty := [id] + l.empty) else l;
            && ListOk(spans[id := sp.(free := sp.free[k..], refcount := sp.refcount + k)],
                      l1.(counter := l.counter - k), cl)
            && forall x :: OnList(l1, x) <==> OnList(l, x)
  {
    var id := l.nonempty[0];
    var sp := spans[id];
    var spans' := spans[id := sp.(free := sp.free[k..], refcount := sp.refcount + k)];
    var rest := l.nonempty[1..];
    assert l.nonempty == [id] + rest;
    assert id !in rest by {
      assert forall j :: 0 <= j < |rest| ==> rest[j] == l.nonempty[j + 1];
    }
    SumSame(spans, spans', rest);
  }

  // ----- all lists together

  function Made(pc: PC): Option<int> { if pc.PopulateWait? then pc.made else None }

  /** Reference count and free list of a span add up to its capacity; a span that is on no list has no object out. */
  ghost predicate SpanOk(c: Config, s: State, id: int)
    requires id in s.spans
  {
    var sp := s.spans[id];
    && sp.cl < |s.lists| == |c.capacity|
    && sp.refcount + |sp.free| == c.capacity[sp.cl]
    && (!OnList(s.lists[sp.cl], id) ==> sp.refcount == 0)
  }

  /** A span being entered by a thread is on no list, and with no other thread. */
  ghost predicate Private(s: State) {
    && (forall t :: 0 <= t < |s.threads| && Made(s.threads[t]).Some? ==>
          var id := Made(s.threads[t]).value;
          id in s.spans && s.spans[id].cl == s.threads[t].cl < |s.lists| && !OnList(s.lists[s.threads[t].cl], id))
    && (forall t, u :: 0 <= t < u < |s.threads| && Made(s.threads[t]).Some? ==>
          Made(s.threads[t]) != Made(s.threads[u]))
  }

  ghost predicate Counts(c: Config, s: State) {
    && |c.capacity| == |s.lists|
    && (forall cl :: 0 <= cl < |s.lists| ==> ListOk(s.spans, s.lists[cl], cl))
    && (forall id :: id in s.spans ==> SpanOk(c, s, id))
    && Private(s)
  }

  /** The part of a list the counters are about. */
  predicate SameList(l: List, l': List) {
    l'.nonempty == l.nonempty && l'.empty == l.empty && l'.numSpans == l.numSpans && l'.counter == l.counter
  }

  lemma CountsUntouched(c: Config, s: State, s': State, t: nat)
    requires Counts(c, s) && t < |s.threads| && |s'.lists| == |s.lists|
    requires forall cl :: 0 <= cl < |s.lists| ==> SameList(s.lists[cl], s'.lists[cl])
    requires s'.spans == s.spans && |s'.threads| == |s.threads| && s'.threads == s.threads[t := s'.threads[t]]
    requires Made(s'.threads[t]).None?
    ensures Counts(c, s')
  {
    forall cl | 0 <= cl < |s'.lists|
      ensures ListOk(s'.spans, s'.lists[cl], cl)
    {
      assert ListOk(s.spans, s.lists[cl], cl) && SameList(s.lists[cl], s'.lists[cl]);
    }
    forall id | id in s'.spans
      ensures SpanOk(c, s', id)
    {
      assert SpanOk(c, s, id) && SameList(s.lists[s.spans[id].cl], s'.lists[s.spans[id].cl]);
    }
    forall u | 0 <= u < |s.threads| && Made(s'.threads[u]).Some?
      ensures var id := Made(s'.threads[u]).value;
              && id in s'.spans && s'.spans[id].cl == s'.threads[u].cl < |s'.lists|
              && !OnList(s'.lists[s'.threads[u].cl], id)
    {
      assert s'.threads[u] == s.threads[u] && SameList(s.lists[s.threads[u].cl], s'.lists[s.threads[u].cl]);
    }
  }

  /** A step that changes span id of class cl and the list of that class. */
  ghost predicate WorksOn(s: State, s': State, t: nat, cl: nat, id: int) {
    && t < |s.threads| && cl < |s.lists|
    && |s'.threads| == |s.threads| && s'.threads == s.threads[t := s'.threads[t]] && Made(s'.threads[t]).None?
    && |s'.lists| == |s.lists| && s'.lists == s.lists[cl := s'.lists[cl]]
    && (forall x :: x != id ==> (x in s.spans <==> x in s'.spans))
    && (forall x :: x != id && x in s.spans ==> s'.spans[x] == s.spans[x])
    && id in s.spans && s.spans[id].cl == cl && OnList(s.lists[cl], id)
    && ListOk(s'.spans, s'.lists[cl], cl)
    && (forall x :: x != id ==> (OnList(s.lists[cl], x) <==> OnList(s'.lists[cl], x)))
  }

  lemma WorksOnKeeps(c: Config, s: State, s': State, t: nat, cl: nat, id: int)
    requires Counts(c, s) && WorksOn(s, s', t, cl, id)
    requires id in s'.spans ==> SpanOk(c, s', id)
    ensures Counts(c, s')
  {
    forall x | 0 <= x < |s'.lists|
      ensures ListOk(s'.spans, s'.lists[x], x)
    {
      if x != cl {
        assert ListOk(s.spans, s.lists[x], x) && s'.lists[x] == s.lists[x];
        ListUnaffected(s.spans, s'.spans, s.lists[x], x, id);
      }
    }
    forall x | x in s'.spans
      ensures SpanOk(c, s', x)
    {
      if x != id {
        assert SpanOk(c, s, x);
      }
    }
    forall u | 0 <= u < |s.threads| && Made(s'.threads[u]).Some?
      ensures var x := Made(s'.threads[u]).value;
              x in s'.spans && s'.spans[x].cl == s'.threads[u].cl < |s'.lists| && !OnList(s'.lists[s'.threads[u].cl], x)
    {
      assert s'.threads[u] == s.threads[u];
    }
  }

  // ----- the steps that work on spans

  /** The span of an object on its way back has it counted as out, and is on the list of the class whose lock the
      thread holds. */
  lemma ComingBack(c: Config, s: State, t: nat)
    requires Objects(c, s) && Counts(c, s) && t < |s.threads| && s.threads[t].Release? && s.threads[t].chain != []
    ensures var cl, id := s.threads[t].cl, s.threads[t].chain[0].span;
            && id in s.spans && s.spans[id].cl == cl < |s.lists| && s.spans[id].refcount >= 1
            && OnList(s.lists[cl], id)
  {
    var o, from := s.threads[t].chain[0], ReleasePlace(s.threads[t], t);
    assert Chain(s, from) == s.threads[t].chain && In(s, from, o);
    assert o in s.place && Live(c, s, o) && Suits(s, o, s.place[o]);
    var sp := s.spans[o.span];
    assert SpanOk(c, s, o.span);
    assert Chain(s, InSpan(o.span)) == sp.free;
    assert o !in sp.free by { assert !In(s, InSpan(o.span), o); }
    ConcatDistinct([o], sp.free);
    var all := [o] + sp.free;
    forall x | x in all
      ensures x.span == o.span && 0 <= x.index < c.capacity[sp.cl]
    {
      assert x == o || In(s, InSpan(o.span), x);
      assert x in s.place && Live(c, s, x) && Suits(s, x, s.place[x]);
    }
    TooMany(o.span, c.capacity[sp.cl], all);
  }

  lemma ReleaseOneCounts(c: Config, s: State, t: nat)
    requires Objects(c, s) && Counts(c, s) && t < |s.threads| && s.threads[t].Release? && s.threads[t].chain != []
    requires s.threads[t].cl < |s.lists| && s.threads[t].chain[0].span in s.spans
    requires s.spans[s.threads[t].chain[0].span].cl < |c.capacity|
    ensures Counts(c, ReleaseOne(c, s, t))
  {
    if s.spans[s.threads[t].chain[0].span].refcount == 1 {
      LastOneBackCounts(c, s, t);
    } else {
      OneBackCounts(c, s, t);
    }
  }

  lemma LastOneBackCounts(c: Config, s: State, t: nat)
    requires Objects(c, s) && Counts(c, s) && t < |s.threads| && s.threads[t].Release? && s.threads[t].chain != []
    requires s.threads[t].cl < |s.lists| && s.threads[t].chain[0].span in s.spans
    requires s.spans[s.threads[t].chain[0].span].cl < |c.capacity|
    requires s.spans[s.threads[t].chain[0].span].refcount == 1
    ensures Counts(c, ReleaseOne(c, s, t))
  {
    ComingBack(c, s, t);
    var s', cl, id := ReleaseOne(c, s, t), s.threads[t].cl, s.threads[t].chain[0].span;
    assert ListOk(s.spans, s.lists[cl], cl) && SpanOk(c, s, id);
    DoomWorksOn(c, s, t, cl, id);
    WorksOnKeeps(c, s, s', t, cl, id);
  }

  lemma DoomWorksOn(c: Config, s: State, t: nat, cl: nat, id: int)
    requires t < |s.threads| && s.threads[t].Release? && s.threads[t].chain != []
    requires s.threads[t].cl == cl < |s.lists| && s.threads[t].chain[0].span == id && id in s.spans
    requires s.spans[id].cl == cl < |c.capacity| && s.spans[id].refcount == 1 && OnList(s.lists[cl], id)
    requires 1 + |s.spans[id].free| == c.capacity[cl] && ListOk(s.spans, s.lists[cl], cl)
    ensures WorksOn(s, ReleaseOne(c, s, t), t, cl, id)
  {
    DoomedOk(s.spans, s.lists[cl], cl, id);
    assert ListOk(ReleaseOne(c, s, t).spans, ReleaseOne(c, s, t).lists[cl], cl);
  }

  lemma OneBackCounts(c: Config, s: State, t: nat)
    requires Objects(c, s) && Counts(c, s) && t < |s.threads| && s.threads[t].Release? && s.threads[t].chain != []
    requires s.threads[t].cl < |s.lists| && s.threads[t].chain[0].span in s.spans
    requires s.spans[s.threads[t].chain[0].span].cl < |c.capacity|
    requires s.spans[s.threads[t].chain[0].span].refcount != 1
    ensures Counts(c, ReleaseOne(c, s, t))
  {
    ComingBack(c, s, t);
    var s', cl, id := ReleaseOne(c, s, t), s.threads[t].cl, s.threads[t].chain[0].span;
    assert ListOk(s.spans, s.lists[cl], cl) && SpanOk(c, s, id);
    NoticedOk(s.spans, s'.spans, s.lists[cl], cl, id, s.threads[t].chain[0]);
    NoticedMembers(s.spans, s.lists[cl], cl, id);
    WorksOnKeeps(c, s, s', t, cl, id);
  }

  lemma NoticedMembers(spans: SpanMap, l: List, cl: nat, id: int)
    requires ListOk(spans, l, cl) && id in spans && OnList(l, id)
    ensures forall x :: OnList(Noticed(l, spans[id], id), x) <==> OnList(l, x)
  {
    if spans[id].free == [] {
      UnlinkOk(spans, l.empty, id);
    }
  }

  /** A fetch takes at least one object from the first nonempty span, and no more than is wanted or than there are. */
  lemma PortionBounds(c: Config, s: State, t: nat)
    requires Counts(c, s) && CanFetch(s, t)
    ensures var want := s.threads[t].n - |s.threads[t].chain|;
            var have := |s.spans[s.lists[s.threads[t].cl].nonempty[0]].free|;
            1 <= Portion(s, t) <= want && Portion(s, t) <= have && (Portion(s, t) == want || Portion(s, t) == have)
  {
    var cl := s.threads[t].cl;
    assert ListOk(s.spans, s.lists[cl], cl);
    assert s.lists[cl].nonempty[0] in s.lists[cl].nonempty;
  }

  lemma CollectCounts(c: Config, s: State, t: nat)
    requires Counts(c, s) && CanFetch(s, t)
    ensures Counts(c, Collect(s, t))
  {
    var cl := s.threads[t].cl;
    var id := s.lists[cl].nonempty[0];
    assert id in s.lists[cl].nonempty && ListOk(s.spans, s.lists[cl], cl) && SpanOk(c, s, id);
    CollectWorksOn(s, t, cl, id);
    WorksOnKeeps(c, s, Collect(s, t), t, cl, id);
  }

  lemma CollectWorksOn(s: State, t: nat, cl: nat, id: int)
    requires CanFetch(s, t) && s.threads[t].cl == cl && s.lists[cl].nonempty[0] == id
    requires id in s.lists[cl].nonempty && ListOk(s.spans, s.lists[cl], cl)
    ensures WorksOn(s, Collect(s, t), t, cl, id)
  {
    TakenOk(s.spans, s.lists[cl], cl, Portion(s, t));
  }

  lemma FetchOneCounts(c: Config, s: State, t: nat)
    requires Counts(c, s) && CanFetch(s, t)
    ensures Counts(c, FetchOne(s, t))
  {
    CollectCounts(c, s, t);
    var s1, s' := Collect(s, t), FetchOne(s, t);
    if |s1.threads[t].chain| >= s.threads[t].n {
      CountsUntouched(c, s1, s', t);
    }
  }

  lemma PopulatedCounts(c: Config, s: State, t: nat, id: int)
    requires Counts(c, s) && c.Valid() && Enabled(c, s, t, NewSpan(id))
    ensures Counts(c, Populated(c, s, t, id))
  {
    var s' := Populated(c, s, t, id);
    PopulatedLists(c, s, t, id);
    forall x | x in s'.spans
      ensures SpanOk(c, s', x)
    {
      assert x != id ==> SpanOk(c, s, x);
    }
    forall u | 0 <= u < |s.threads| && Made(s'.threads[u]).Some?
      ensures var x := Made(s'.threads[u]).value;
              x in s'.spans && s'.spans[x].cl == s'.threads[u].cl < |s'.lists| && !OnList(s'.lists[s'.threads[u].cl], x)
      ensures u != t ==> Made(s'.threads[u]) != Some(id)
    {
      assert u != t ==> s'.threads[u] == s.threads[u];
    }
  }

  lemma PopulatedLists(c: Config, s: State, t: nat, id: int)
    requires Counts(c, s) && Enabled(c, s, t, NewSpan(id))
    ensures var s' := Populated(c, s, t, id);
            forall x :: 0 <= x < |s'.lists| ==> ListOk(s'.spans, s'.lists[x], x) && !OnList(s.lists[x], id)
  {
    var s' := Populated(c, s, t, id);
    forall x | 0 <= x < |s'.lists|
      ensures ListOk(s'.spans, s'.lists[x], x) && !OnList(s.lists[x], id)
    {
      assert ListOk(s.spans, s.lists[x], x);
      ListUnaffected(s.spans, s'.spans, s.lists[x], x, id);
    }
  }

  lemma PopulateLockedCounts(c: Config, s: State, t: nat)
    requires Counts(c, s) && c.Valid() && t < |s.threads| && s.threads[t].PopulateWait? && Unlocked(s, s.threads[t].cl)
    requires s.threads[t].made.Some? ==> s.threads[t].made.value in s.spans
    ensures Counts(c, PopulateLocked(s, t))
  {
    var s', pc := PopulateLocked(s, t), s.threads[t];
    if pc.made.None? {
      CountsUntouched(c, s, s', t);
    } else {
      var cl, id := pc.cl, pc.made.value;
      assert ListOk(s.spans, s.lists[cl], cl) && SpanOk(c, s, id);
      PrependOk(s.spans, s.lists[cl].nonempty, id);
      assert ListOk(s'.spans, s'.lists[cl], cl);
      EnteredKeeps(c, s, s', t, cl, id);
    }
  }

  lemma EnteredKeeps(c: Config, s: State, s': State, t: nat, cl: nat, id: int)
    requires Counts(c, s) && t < |s.threads| && cl < |s.lists| && Made(s.threads[t]) == Some(id)
    requires |s'.threads| == |s.threads| && s'.threads == s.threads[t := s'.threads[t]] && Made(s'.threads[t]).None?
    requires |s'.lists| == |s.lists| && s'.lists == s.lists[cl := s'.lists[cl]] && s'.spans == s.spans
    requires id in s.spans && s.spans[id].cl == cl && ListOk(s'.spans, s'.lists[cl], cl)
    requires forall x :: OnList(s'.lists[cl], x) <==> OnList(s.lists[cl], x) || x == id
    ensures Counts(c, s')
  {
    forall x | x in s'.spans
      ensures SpanOk(c, s', x)
    {
      assert SpanOk(c, s, x);
    }
    forall u | 0 <= u < |s.threads| && Made(s'.threads[u]).Some?
      ensures var x := Made(s'.threads[u]).value;
              x in s'.spans && s'.spans[x].cl == s'.threads[u].cl < |s'.lists| && !OnList(s'.lists[s'.threads[u].cl], x)
    {
      assert u != t && s'.threads[u] == s.threads[u];
      assert Made(s.threads[u]) != Made(s.threads[t]);
    }
  }
}
