/** Where the objects are: every interleaving keeps each object in exactly one place. */
module CentralObjects {
  import opened Common
  import opened Central
  import opened CentralLocks

  function Capacity(c: Config, sp: CSpan): nat {
    if sp.cl < |c.capacity| then c.capacity[sp.cl] else 0
  }

  /** The objects there are: the slots of the spans the central lists own. */
  predicate Live(c: Config, s: State, o: Obj) {
    o.span in s.spans && 0 <= o.index < Capacity(c, s.spans[o.span])
  }

  /** Each object is in the place recorded for it and in no other. */
  ghost predicate Placed(s: State) {
    forall p, o {:trigger In(s, p, o)} :: In(s, p, o) <==> o in s.place && s.place[o] == p
  }

  ghost predicate AllPlaced(c: Config, s: State) {
    forall o {:trigger Live(c, s, o)} :: o in s.place <==> Live(c, s, o)
  }

  ghost predicate ChainsDistinct(s: State) {
    forall p {:trigger Chain(s, p)} :: Distinct(Chain(s, p))
  }

  /** An object is only ever with its own span, or among objects of its own class. */
  predicate Suits(s: State, o: Obj, p: Place) {
    match p
    case InSpan(id) => o.span == id
    case InSlot(cl, _) => o.span in s.spans && s.spans[o.span].cl == cl
    case Transit(t) => t < |s.threads| && o.span in s.spans && s.spans[o.span].cl == OwnClass(s.threads[t])
    case Victim(t) =>
      t < |s.threads| && !s.threads[t].Idle? && o.span in s.spans && s.spans[o.span].cl == s.threads[t].cl
    case _ => true
  }

  ghost predicate AllSuit(s: State) {
    forall o {:trigger s.place[o]} :: o in s.place ==> Suits(s, o, s.place[o])
  }

  ghost predicate Objects(c: Config, s: State) {
    Placed(s) && AllPlaced(c, s) && ChainsDistinct(s) && AllSuit(s)
  }

  // ----- steps that move nothing

  ghost predicate SameHoldings(s: State, s': State) {
    && (forall p {:trigger Chain(s', p)} :: Chain(s', p) == Chain(s, p))
    && s'.caches == s.caches && s'.app == s.app && s'.place == s.place && s'.spans == s.spans
    && |s'.threads| == |s.threads|
    && forall t :: 0 <= t < |s.threads| ==>
         && (OwnChain(s.threads[t]) != [] ==> OwnClass(s'.threads[t]) == OwnClass(s.threads[t]))
         && (VictimChain(s.threads[t]) != [] ==>
               VictimChain(s'.threads[t]) != [] && s'.threads[t].cl == s.threads[t].cl)
  }

  lemma SameHoldingsKeep(c: Config, s: State, s': State)
    requires Objects(c, s) && SameHoldings(s, s')
    ensures Objects(c, s')
  {
    forall p, o
      ensures In(s', p, o) <==> In(s, p, o)
    {
      assert Chain(s', p) == Chain(s, p);
    }
    forall o | o in s'.place
      ensures Suits(s', o, s'.place[o])
    {
      assert Suits(s, o, s.place[o]);
      assert In(s, s.place[o], o);
    }
    forall o
      ensures Live(c, s', o) <==> Live(c, s, o)
    {
    }
  }

  // ----- steps that move a chain from one place to another

  ghost predicate Moves(s: State, s': State, from: Place, to: Place, chain: seq<Obj>) {
    && from != to
    && s'.place == Moved(s.place, chain, to)
    && (forall o :: o in chain ==> In(s, from, o))
    && (forall p, o {:trigger In(s', p, o)} :: p != from && p != to ==> (In(s', p, o) <==> In(s, p, o)))
    && (forall o {:trigger In(s', from, o)} :: In(s', from, o) <==> In(s, from, o) && o !in chain)
    && (forall o {:trigger In(s', to, o)} :: In(s', to, o) <==> In(s, to, o) || o in chain)
  }

  lemma MovesKeepPlaced(s: State, s': State, from: Place, to: Place, chain: seq<Obj>)
    requires Placed(s) && Moves(s, s', from, to, chain)
    ensures Placed(s') && s'.place.Keys == s.place.Keys
  {
    forall p, o
      ensures In(s', p, o) <==> o in s'.place && s'.place[o] == p
    {
      assert In(s, p, o) <==> o in s.place && s.place[o] == p;
      assert o in chain ==> In(s, from, o);
    }
  }

  /** A step that only changes where thread t is, and locks and sizes. */
  ghost predicate Quiet(s: State, s': State, t: nat, x: nat) {
    && t < |s.threads| && x < |s.lists|
    && |s'.threads| == |s.threads| && s'.threads == s.threads[t := s'.threads[t]]
    && |s'.lists| == |s.lists| && s'.lists == s.lists[x := s'.lists[x]] && s'.lists[x].slots == s.lists[x].slots
    && s'.caches == s.caches && s'.app == s.app && s'.place == s.place && s'.spans == s.spans
    && OwnChain(s'.threads[t]) == OwnChain(s.threads[t]) && VictimChain(s'.threads[t]) == VictimChain(s.threads[t])
    && (OwnChain(s.threads[t]) != [] ==> OwnClass(s'.threads[t]) == OwnClass(s.threads[t]))
    && (VictimChain(s.threads[t]) != [] ==> s'.threads[t].cl == s.threads[t].cl)
  }

  lemma QuietKeeps(c: Config, s: State, s': State, t: nat, x: nat)
    requires Objects(c, s) && Quiet(s, s', t, x)
    ensures Objects(c, s')
  {
    forall p
      ensures Chain(s', p) == Chain(s, p)
    {
    }
    SameHoldingsKeep(c, s, s');
  }

  /** Does the step move no object? */
  predicate IsQuiet(c: Config, s: State, t: nat, a: Action)
    requires t < |s.threads|
  {
    match a
    case GiveUp => true
    case StealFrom(_) => true
    case NoMemory => true
    case StartRemove(_, _) => true
    case Advance =>
      (match s.threads[t]
       case InsertWait(cl, chain) =>
         cl < |s.lists| && cl < |c.batch| && !(|chain| == c.batch[cl] && |s.lists[cl].slots| < s.lists[cl].cacheSize)
       case VictimWait(_, _, force, v) => v < |s.lists| && !(force && |s.lists[v].slots| == s.lists[v].cacheSize > 0)
       case HomeWait(cl, _, _, won) => cl < |s.lists| && !(won && s.lists[cl].cacheSize < s.lists[cl].maxCacheSize)
       case Release(_, chain, _) => chain == []
       case Delete(_, _, _, _) => true
       case RelockWait(_, _, _) => true
       case RemoveWait(cl, n) => cl < |s.lists| && cl < |c.batch| && !(n == c.batch[cl] && |s.lists[cl].slots| > 0)
       case Fetch(cl, _, _, again) => cl < |s.lists| && s.lists[cl].nonempty == [] && !again
       case PopulateWait(_, _, _, _) => true
       case _ => false)
    case _ => false
  }

  lemma QuietStep(c: Config, s: State, t: nat, a: Action)
    requires Enabled(c, s, t, a) && IsQuiet(c, s, t, a) && RefersTo(s.threads[t], |s.lists|)
    ensures exists x :: Quiet(s, Step(c, s, t, a), t, x)
  {
    if !a.Advance? {
      QuietChoice(c, s, t, a);
    } else if InsertSide(s.threads[t]) {
      QuietInsert(c, s, t);
    } else if ReleaseSide(s.threads[t]) {
      QuietRelease(c, s, t);
    } else {
      QuietRemove(c, s, t);
    }
  }

  lemma QuietChoice(c: Config, s: State, t: nat, a: Action)
    requires Enabled(c, s, t, a) && IsQuiet(c, s, t, a) && RefersTo(s.threads[t], |s.lists|) && !a.Advance?
    ensures exists x :: Quiet(s, Step(c, s, t, a), t, x)
  {
    assert Quiet(s, Step(c, s, t, a), t, if a.StartRemove? then a.cl else Touched(s.threads[t]));
  }

  lemma QuietInsert(c: Config, s: State, t: nat)
    requires Enabled(c, s, t, Advance) && IsQuiet(c, s, t, Advance) && InsertSide(s.threads[t])
    requires RefersTo(s.threads[t], |s.lists|)
    ensures exists x :: Quiet(s, Step(c, s, t, Advance), t, x)
  {
    assert Quiet(s, Step(c, s, t, Advance), t, Touched(s.threads[t]));
  }

  lemma QuietRelease(c: Config, s: State, t: nat)
    requires Enabled(c, s, t, Advance) && IsQuiet(c, s, t, Advance) && ReleaseSide(s.threads[t])
    requires RefersTo(s.threads[t], |s.lists|)
    ensures exists x :: Quiet(s, Step(c, s, t, Advance), t, x)
  {
    assert Quiet(s, Step(c, s, t, Advance), t, Touched(s.threads[t]));
  }

  lemma QuietRemove(c: Config, s: State, t: nat)
    requires Enabled(c, s, t, Advance) && IsQuiet(c, s, t, Advance)
    requires RefersTo(s.threads[t], |s.lists|) && !InsertSide(s.threads[t]) && !ReleaseSide(s.threads[t])
    ensures exists x :: Quiet(s, Step(c, s, t, Advance), t, x)
  {
    assert Quiet(s, Step(c, s, t, Advance), t, Touched(s.threads[t]));
  }

  /** What else a move has to respect. */
  ghost predicate Tidy(s: State, s': State, t: nat, from: Place, to: Place) {
    && (forall p {:trigger Chain(s', p)} :: p != from && p != to ==> Chain(s', p) == Chain(s, p))
    && Distinct(Chain(s', from)) && Distinct(Chain(s', to))
    && s'.spans.Keys == s.spans.Keys && (forall id :: id in s.spans ==> s'.spans[id].cl == s.spans[id].cl)
    && t < |s.threads| == |s'.threads| && s'.threads == s.threads[t := s'.threads[t]]
    && (OwnChain(s.threads[t]) != [] && OwnChain(s'.threads[t]) != [] ==>
          OwnClass(s'.threads[t]) == OwnClass(s.threads[t]))
    && (VictimChain(s.threads[t]) != [] && VictimChain(s'.threads[t]) != [] ==> s'.threads[t].cl == s.threads[t].cl)
  }

  lemma MoveKeeps(c: Config, s: State, s': State, t: nat, from: Place, to: Place, chain: seq<Obj>)
    requires Objects(c, s) && Moves(s, s', from, to, chain) && Tidy(s, s', t, from, to)
    requires forall o :: o in chain ==> Suits(s', o, to)
    ensures Objects(c, s')
  {
    MovesKeepPlaced(s, s', from, to, chain);
    forall o
      ensures Live(c, s', o) <==> Live(c, s, o)
    {
    }
    forall o | o in s'.place
      ensures Suits(s', o, s'.place[o])
    {
      if o !in chain {
        StaysSuited(s, s', t, from, to, o);
      }
    }
    forall p
      ensures Distinct(Chain(s', p))
    {
      assert Distinct(Chain(s, p));
    }
  }

  lemma StaysSuited(s: State, s': State, t: nat, from: Place, to: Place, o: Obj)
    requires Placed(s) && Placed(s') && Tidy(s, s', t, from, to)
    requires o in s.place && o in s'.place && s'.place[o] == s.place[o] && Suits(s, o, s.place[o])
    ensures Suits(s', o, s'.place[o])
  {
    var p := s.place[o];
    assert In(s, p, o) && In(s', p, o);
  }

  // ----- the client's moves

  lemma AllocateKeeps(c: Config, s: State, t: nat, o: Obj)
    requires Objects(c, s) && Enabled(c, s, t, Allocate(o))
    ensures Objects(c, Step(c, s, t, Allocate(o)))
  {
    var s' := Step(c, s, t, Allocate(o));
    assert !In(s, App, o) by { assert In(s, Cached(t), o); }
    MoveKeeps(c, s, s', t, Cached(t), App, [o]);
  }

  lemma FreeKeeps(c: Config, s: State, t: nat, o: Obj)
    requires Objects(c, s) && Enabled(c, s, t, Free(o))
    ensures Objects(c, Step(c, s, t, Free(o)))
  {
    var s' := Step(c, s, t, Free(o));
    MoveKeeps(c, s, s', t, App, Cached(t), [o]);
  }

  lemma StartInsertKeeps(c: Config, s: State, t: nat, cl: nat, chain: seq<Obj>)
    requires Objects(c, s) && Enabled(c, s, t, StartInsert(cl, chain))
    ensures Objects(c, Step(c, s, t, StartInsert(cl, chain)))
  {
    var s' := At(s, t, InsertWait(cl, chain)).(caches := s.caches[t := s.caches[t] - set o | o in chain],
                                               place := Moved(s.place, chain, Transit(t)));
    IntoTransit(c, s, s', t, cl, chain, Cached(t));
    assert Step(c, s, t, StartInsert(cl, chain)) == s';
  }

  lemma StartInsertOneKeeps(c: Config, s: State, t: nat, cl: nat, o: Obj)
    requires Objects(c, s) && Enabled(c, s, t, StartInsertOne(cl, o))
    ensures Objects(c, Step(c, s, t, StartInsertOne(cl, o)))
  {
    var s' := At(s, t, InsertWait(cl, [o])).(app := s.app - {o}, place := Moved(s.place, [o], Transit(t)));
    IntoTransit(c, s, s', t, cl, [o], App);
    assert Step(c, s, t, StartInsertOne(cl, o)) == s';
  }

  /** A chain leaves the thread cache, or the application, for the central list. */
  lemma IntoTransit(c: Config, s: State, s': State, t: nat, cl: nat, chain: seq<Obj>, from: Place)
    requires Objects(c, s) && t < |s.threads| && t < |s.caches| && s.threads[t].Idle? && Distinct(chain)
    requires forall o :: o in chain ==> In(s, from, o) && o.span in s.spans && s.spans[o.span].cl == cl
    requires from == App || from == Cached(t)
    requires s' == At(s, t, InsertWait(cl, chain)).(caches := s'.caches, app := s'.app,
                                                    place := Moved(s.place, chain, Transit(t)))
    requires if from == App then s'.caches == s.caches && s'.app == s.app - (set o | o in chain)
             else s'.app == s.app && s'.caches == s.caches[t := s.caches[t] - (set o | o in chain)]
    ensures Objects(c, s')
  {
    MoveKeeps(c, s, s', t, from, Transit(t), chain);
  }

  // ----- transfer slots

  lemma PushSlotKeeps(c: Config, s: State, t: nat, cl: nat, chain: seq<Obj>)
    requires Objects(c, s) && t < |s.threads| && cl < |s.lists|
    requires OwnChain(s.threads[t]) == chain && VictimChain(s.threads[t]) == [] && OwnClass(s.threads[t]) == cl
    ensures Objects(c, PushSlot(s, t, cl, chain))
  {
    var s', slot := PushSlot(s, t, cl, chain), InSlot(cl, |s.lists[cl].slots|);
    assert Chain(s, Transit(t)) == chain;
    forall o | o in chain
      ensures Suits(s', o, slot)
    {
      assert In(s, Transit(t), o);
    }
    MoveKeeps(c, s, s', t, Transit(t), slot, chain);
  }

  lemma EvictSlotKeeps(c: Config, s: State, s': State, t: nat, v: nat, pc: PC)
    requires Objects(c, s) && t < |s.threads| && v < |s.lists| && |s.lists[v].slots| > 0
    requires var top := |s.lists[v].slots| - 1;
             && |s'.lists| == |s.lists| && s'.lists == s.lists[v := s'.lists[v]]
             && s'.lists[v].slots == s.lists[v].slots[..top]
             && VictimChain(pc) == s.lists[v].slots[top]
             && s'.place == Moved(s.place, s.lists[v].slots[top], Victim(t))
    requires s'.threads == s.threads[t := pc] && OwnChain(pc) == OwnChain(s.threads[t])
    requires !pc.Idle? && pc.cl == v && VictimChain(s.threads[t]) == [] && OwnClass(pc) == OwnClass(s.threads[t])
    requires s'.caches == s.caches && s'.app == s.app && s'.spans == s.spans
    ensures Objects(c, s')
  {
    var top := |s.lists[v].slots| - 1;
    var chain, slot := s.lists[v].slots[top], InSlot(v, top);
    assert Chain(s, slot) == chain && Chain(s', slot) == [];
    forall o | o in chain
      ensures Suits(s', o, Victim(t))
    {
      assert In(s, slot, o);
    }
    assert Chain(s', Victim(t)) == chain && Chain(s, Victim(t)) == [];
    forall p
      ensures p != slot && p != Victim(t) ==> Chain(s', p) == Chain(s, p)
    {
    }
    MoveKeeps(c, s, s', t, slot, Victim(t), chain);
  }

  /** Popping the top slot straight into the thread cache. */
  lemma TakeSlotKeeps(c: Config, s: State, t: nat)
    requires Objects(c, s) && t < |s.threads| && t < |s.caches| && s.threads[t].RemoveWait?
    requires var cl := s.threads[t].cl;
             Unlocked(s, cl) && cl < |c.batch| && s.threads[t].n == c.batch[cl] && |s.lists[cl].slots| > 0
    ensures Objects(c, RemoveLocked(c, s, t))
  {
    var s', cl := RemoveLocked(c, s, t), s.threads[t].cl;
    var top := |s.lists[cl].slots| - 1;
    var chain := s.lists[cl].slots[top];
    assert Chain(s, InSlot(cl, top)) == chain;
    forall p
      ensures p != InSlot(cl, top) && p != Cached(t) ==> Chain(s', p) == Chain(s, p)
    {
    }
    assert Moves(s, s', InSlot(cl, top), Cached(t), chain);
    MoveKeeps(c, s, s', t, InSlot(cl, top), Cached(t), chain);
  }

  lemma DeliverKeeps(c: Config, s: State, t: nat, cl: nat, chain: seq<Obj>)
    requires Objects(c, s) && t < |s.threads| && cl < |s.lists| && t < |s.caches|
    requires OwnChain(s.threads[t]) == chain && VictimChain(s.threads[t]) == []
    ensures Objects(c, Deliver(s, t, cl, chain))
  {
    var s' := Deliver(s, t, cl, chain);
    assert Chain(s, Transit(t)) == chain;
    forall p
      ensures p != Transit(t) && p != Cached(t) ==> Chain(s', p) == Chain(s, p)
    {
    }
    assert Moves(s, s', Transit(t), Cached(t), chain);
    MoveKeeps(c, s, s', t, Transit(t), Cached(t), chain);
  }

  // ----- taking objects from a span

  lemma PrefixDistinct<T>(a: seq<T>, k: nat)
    requires Distinct(a) && k <= |a|
    ensures Distinct(a[..k]) && Distinct(a[k..])
    ensures forall x :: x in a[..k] ==> x in a && x !in a[k..]
    ensures forall x :: x in a[k..] ==> x in a && x !in a[..k]
    ensures forall x :: x in a ==> x in a[..k] || x in a[k..]
  {
    assert a == a[..k] + a[k..];
    forall x | x in a[..k]
      ensures x !in a[k..]
    {
      var i :| 0 <= i < k && a[..k][i] == x;
      assert forall j :: 0 <= j < |a[k..]| ==> a[k..][j] == a[j + k] != a[i];
    }
  }

  lemma ConcatDistinct<T>(a: seq<T>, b: seq<T>)
    requires Distinct(a) && Distinct(b) && forall x :: x in a ==> x !in b
    ensures Distinct(a + b)
  {
    forall i, j | 0 <= i < j < |a + b|
      ensures (a + b)[i] != (a + b)[j]
    {
      if i < |a| <= j {
        assert a[i] in a && b[j - |a|] in b;
      }
    }
  }

  /** The span gives up a prefix of its free list to the thread's chain. */
  lemma TakeKeeps(c: Config, s: State, s': State, t: nat, id: int, k: nat, pc: PC)
    requires Objects(c, s) && t < |s.threads| && id in s.spans && k <= |s.spans[id].free|
    requires var sp := s.spans[id]; var taken := sp.free[..k];
             && s'.spans == s.spans[id := sp.(free := sp.free[k..], refcount := sp.refcount + k)]
             && s'.threads == s.threads[t := pc] && OwnChain(pc) == taken + OwnChain(s.threads[t])
             && s'.place == Moved(s.place, taken, Transit(t))
    requires VictimChain(pc) == VictimChain(s.threads[t]) == []
             && OwnClass(pc) == OwnClass(s.threads[t]) == s.spans[id].cl
    requires s'.caches == s.caches && s'.app == s.app && |s'.lists| == |s.lists|
    requires forall cl :: 0 <= cl < |s.lists| ==> s'.lists[cl].slots == s.lists[cl].slots
    ensures Objects(c, s')
  {
    var free, own := s.spans[id].free, OwnChain(s.threads[t]);
    var taken := free[..k];
    assert Chain(s, InSpan(id)) == free && Chain(s, Transit(t)) == own;
    PrefixDistinct(free, k);
    forall o | o in taken
      ensures o !in own && Suits(s', o, Transit(t))
    {
      assert In(s, InSpan(id), o);
      assert !In(s, Transit(t), o);
    }
    ConcatDistinct(taken, own);
    assert Chain(s', InSpan(id)) == free[k..] && Chain(s', Transit(t)) == taken + own;
    MoveKeeps(c, s, s', t, InSpan(id), Transit(t), taken);
  }

  // ----- a new span

  lemma PopulatedKeeps(c: Config, s: State, t: nat, id: int)
    requires Objects(c, s) && Enabled(c, s, t, NewSpan(id))
    ensures Objects(c, Populated(c, s, t, id))
  {
    var s', cl := Populated(c, s, t, id), s.threads[t].cl;
    var objs := Carve(id, c.capacity[cl]);
    assert Chain(s', InSpan(id)) == objs;
    forall p
      ensures p != InSpan(id) ==> Chain(s', p) == Chain(s, p)
    {
    }
    forall o
      ensures o in objs <==> o.span == id && 0 <= o.index < c.capacity[cl]
    {
      if o.span == id && 0 <= o.index < c.capacity[cl] {
        assert objs[o.index] == o;
      }
    }
    forall o
      ensures o in s'.place <==> Live(c, s', o)
    {
      assert o in s.place <==> Live(c, s, o);
    }
    PopulatedPlaced(c, s, s', objs, id);
    forall o | o in s'.place
      ensures Suits(s', o, s'.place[o])
    {
      if o !in objs {
        assert Suits(s, o, s.place[o]) && In(s, s.place[o], o);
      }
    }
  }

  lemma PopulatedPlaced(c: Config, s: State, s': State, objs: seq<Obj>, id: int)
    requires Placed(s) && AllPlaced(c, s) && id !in s.spans
    requires forall o :: o in objs ==> o.span == id
    requires s'.place == s.place + map o | o in objs :: InSpan(id)
    requires s'.caches == s.caches && s'.app == s.app
    requires Chain(s', InSpan(id)) == objs
    requires forall p {:trigger Chain(s', p)} :: p != InSpan(id) ==> Chain(s', p) == Chain(s, p)
    ensures Placed(s')
  {
    forall p, o
      ensures In(s', p, o) <==> o in s'.place && s'.place[o] == p
    {
      assert In(s, p, o) <==> o in s.place && s.place[o] == p;
      assert o in s.place <==> Live(c, s, o);
      assert p != InSpan(id) ==> Chain(s', p) == Chain(s, p);
      assert Chain(s, InSpan(id)) == [];
    }
  }

  // ----- giving an object back to its span

  /** The place of the list a thread is releasing. */
  function ReleasePlace(pc: PC, t: nat): Place {
    if pc.Release? && pc.then_.Resume? then Victim(t) else Transit(t)
  }

  /** The first object of the list goes to the front of its span's free list. */
  lemma GiveBackKeeps(c: Config, s: State, s': State, t: nat, pc: PC)
    requires Objects(c, s) && t < |s.threads| && s.threads[t].Release? && s.threads[t].chain != []
    requires var Release(cl, chain, k) := s.threads[t]; var o, id := chain[0], chain[0].span;
             && id in s.spans
             && pc == Release(cl, chain[1..], k)
             && s'.spans ==
                  s.spans[id := s.spans[id].(free := [o] + s.spans[id].free, refcount := s.spans[id].refcount - 1)]
             && s'.place == s.place[o := InSpan(id)]
    requires s'.threads == s.threads[t := pc] && s'.caches == s.caches && s'.app == s.app && |s'.lists| == |s.lists|
    requires forall cl :: 0 <= cl < |s.lists| ==> s'.lists[cl].slots == s.lists[cl].slots
    ensures Objects(c, s')
  {
    var Release(cl, chain, k) := s.threads[t];
    var o, id, from := chain[0], chain[0].span, ReleasePlace(s.threads[t], t);
    assert Chain(s, from) == chain && In(s, from, o);
    PrefixDistinct(chain, 1);
    assert chain[..1] == [o];
    assert o !in s.spans[id].free by { assert !In(s, InSpan(id), o); }
    ConcatDistinct([o], s.spans[id].free);
    assert Moved(s.place, [o], InSpan(id)) == s.place[o := InSpan(id)];
    assert Chain(s', from) == chain[1..] && Chain(s', InSpan(id)) == [o] + Chain(s, InSpan(id));
    forall p
      ensures p != from && p != InSpan(id) ==> Chain(s', p) == Chain(s, p)
    {
    }
    MoveKeeps(c, s, s', t, from, InSpan(id), [o]);
  }

  // ----- a span whose last object comes back

  /** Leaving out one of several distinct elements. */
  lemma LeaveOut<T>(a: seq<T>, k: nat)
    requires Distinct(a) && k < |a|
    ensures var rest := a[..k] + a[k + 1..];
            Distinct(rest) && |rest| == |a| - 1 && forall x :: x in rest ==> x in a && x != a[k]
  {
    var rest := a[..k] + a[k + 1..];
    assert forall i :: 0 <= i < |rest| ==> rest[i] == a[if i < k then i else i + 1];
    forall x | x in rest
      ensures x in a && x != a[k]
    {
      var i :| 0 <= i < |rest| && rest[i] == x;
      assert x == a[if i < k then i else i + 1];
    }
  }

  lemma {:induction false} CountedOut(id: int, n: nat, objs: seq<Obj>)
    requires Distinct(objs) && |objs| == n
    requires forall o :: o in objs ==> o.span == id && 0 <= o.index < n
    ensures forall i :: 0 <= i < n ==> Obj(id, i) in objs
  {
    if n == 0 {
    } else {
      var last := Obj(id, n - 1);
      if last !in objs {
        TooMany(id, n - 1, objs);
      } else {
        var k :| 0 <= k < n && objs[k] == last;
        var rest := objs[..k] + objs[k + 1..];
        LeaveOut(objs, k);
        CountedOut(id, n - 1, rest);
        assert forall i :: 0 <= i < n - 1 ==> Obj(id, i) in rest;
      }
    }
  }

  /** n + 1 distinct slots do not fit below n. */
  lemma {:induction false} TooMany(id: int, n: nat, objs: seq<Obj>)
    requires Distinct(objs) && forall o :: o in objs ==> o.span == id && 0 <= o.index < n
    ensures |objs| <= n
  {
    if objs == [] {
    } else {
      assert objs[0] in objs;
      var last := Obj(id, n - 1);
      if last in objs {
        var k :| 0 <= k < |objs| && objs[k] == last;
        LeaveOut(objs, k);
        TooMany(id, n - 1, objs[..k] + objs[k + 1..]);
      } else {
        TooMany(id, n - 1, objs);
      }
    }
  }

  /** When the reference count says that o is the last object out, all the others are on the span's free list. */
  lemma LastOneOut(c: Config, s: State, p: Place, o: Obj)
    requires Objects(c, s) && o.span in s.spans && In(s, p, o) && p != InSpan(o.span)
    requires var sp := s.spans[o.span]; sp.cl < |c.capacity| && |sp.free| + 1 == c.capacity[sp.cl]
    ensures forall x :: x in s.place && x.span == o.span ==> x == o || s.place[x] == InSpan(o.span)
  {
    var sp := s.spans[o.span];
    var all := [o] + sp.free;
    assert Chain(s, InSpan(o.span)) == sp.free;
    assert o !in sp.free by { assert !In(s, InSpan(o.span), o); }
    ConcatDistinct([o], sp.free);
    forall x | x in all
      ensures x.span == o.span && 0 <= x.index < |all|
    {
      assert x == o || In(s, InSpan(o.span), x);
      assert x in s.place && Live(c, s, x);
      assert Suits(s, x, s.place[x]);
    }
    CountedOut(o.span, |all|, all);
    forall x | x in s.place && x.span == o.span
      ensures x == o || s.place[x] == InSpan(o.span)
    {
      assert Live(c, s, x) && Obj(o.span, x.index) == x;
      assert x in all;
      assert x in sp.free ==> In(s, InSpan(o.span), x);
    }
  }

  lemma DoomKeeps(c: Config, s: State, s': State, t: nat, pc: PC)
    requires Objects(c, s) && t < |s.threads| && s.threads[t].Release? && s.threads[t].chain != []
    requires var Release(cl, chain, k) := s.threads[t]; var id := chain[0].span;
             && id in s.spans && s.spans[id].cl < |c.capacity| && |s.spans[id].free| + 1 == c.capacity[s.spans[id].cl]
             && pc == Delete(cl, chain[1..], k, id)
             && s'.spans == s.spans - {id}
             && s'.place == map x | x in s.place && x.span != id :: s.place[x]
    requires s'.threads == s.threads[t := pc] && s'.caches == s.caches && s'.app == s.app && |s'.lists| == |s.lists|
    requires forall cl :: 0 <= cl < |s.lists| ==> s'.lists[cl].slots == s.lists[cl].slots
    ensures Objects(c, s')
  {
    var Release(cl, chain, k) := s.threads[t];
    var o, id, from := chain[0], chain[0].span, ReleasePlace(s.threads[t], t);
    assert Chain(s, from) == chain && In(s, from, o);
    LastOneOut(c, s, from, o);
    PrefixDistinct(chain, 1);
    assert chain == [o] + chain[1..] && chain[..1] == [o];
    forall p
      ensures Chain(s', p) == if p == from then chain[1..] else if p == InSpan(id) then [] else Chain(s, p)
    {
    }
    forall p, x
      ensures In(s', p, x) <==> x in s'.place && s'.place[x] == p
    {
      assert In(s, p, x) <==> x in s.place && s.place[x] == p;
    }
    forall x
      ensures x in s'.place <==> Live(c, s', x)
    {
      assert x in s.place <==> Live(c, s, x);
    }
    forall x | x in s'.place
      ensures Suits(s', x, s'.place[x])
    {
      assert Suits(s, x, s.place[x]) && In(s', s'.place[x], x);
    }
    forall p
      ensures Distinct(Chain(s', p))
    {
      assert Distinct(Chain(s, p));
    }
  }
}
