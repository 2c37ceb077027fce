/** The invariant of the central lists over every run, and what follows from it. */
module CentralRuns {
  import opened Common
  import opened Central
  import opened CentralLocks
  import opened CentralObjects
  import opened CentralCounts

  ghost predicate Inv(c: Config, s: State) {
    && c.Valid() && |c.batch| == |s.lists| && |s.caches| == |s.threads|
    && ClassesOk(s) && LocksOk(s) && SlotsOk(c, s) && ChainsOk(c, s)
    && Objects(c, s) && Counts(c, s)
  }

  // ----- objects

  lemma PushKeepsObjects(c: Config, s: State, t: nat)
    requires Inv(c, s) && Enabled(c, s, t, Advance) && !IsQuiet(c, s, t, Advance)
    requires s.threads[t].InsertWait? || s.threads[t].HomeWait?
    ensures Objects(c, Step(c, s, t, Advance))
  {
    var pc := s.threads[t];
    if pc.InsertWait? {
      PushSlotKeeps(c, s, t, pc.cl, pc.chain);
    } else {
      var l := s.lists[pc.cl];
      var grown := s.(lists := s.lists[pc.cl := l.(cacheSize := l.cacheSize + 1)]);
      QuietKeeps(c, s, grown, t, pc.cl);
      PushSlotKeeps(c, grown, t, pc.cl, pc.chain);
    }
  }

  lemma EvictKeepsObjects(c: Config, s: State, t: nat)
    requires Inv(c, s) && Enabled(c, s, t, Advance) && !IsQuiet(c, s, t, Advance) && s.threads[t].VictimWait?
    ensures Objects(c, Step(c, s, t, Advance))
  {
    var s', v := VictimLocked(s, t), s.threads[t].victim;
    EvictSlotKeeps(c, s, s', t, v, s'.threads[t]);
  }

  lemma ReleaseKeepsObjects(c: Config, s: State, t: nat)
    requires Inv(c, s) && t < |s.threads| && s.threads[t].Release? && s.threads[t].chain != []
    requires s.threads[t].cl < |s.lists| && s.threads[t].chain[0].span in s.spans
    requires s.spans[s.threads[t].chain[0].span].cl < |c.capacity|
    ensures Objects(c, ReleaseOne(c, s, t))
  {
    var s' := ReleaseOne(c, s, t);
    ComingBack(c, s, t);
    var id := s.threads[t].chain[0].span;
    assert SpanOk(c, s, id);
    if s.spans[id].refcount == 1 {
      DoomKeeps(c, s, s', t, s'.threads[t]);
    } else {
      GiveBackKeeps(c, s, s', t, s'.threads[t]);
    }
  }

  /** What a fetch changes, part by part. */
  lemma CollectShape(s: State, t: nat, id: int, k: nat)
    requires CanFetch(s, t) && id == s.lists[s.threads[t].cl].nonempty[0] && k == Portion(s, t)
    ensures var s', sp := Collect(s, t), s.spans[id];
            && s'.spans == s.spans[id := sp.(free := sp.free[k..], refcount := sp.refcount + k)]
            && s'.threads == s.threads[t := s'.threads[t]] && s'.place == Moved(s.place, sp.free[..k], Transit(t))
            && OwnChain(s'.threads[t]) == sp.free[..k] + OwnChain(s.threads[t])
            && OwnClass(s'.threads[t]) == OwnClass(s.threads[t]) == s.threads[t].cl
            && VictimChain(s'.threads[t]) == VictimChain(s.threads[t]) == []
            && s'.caches == s.caches && s'.app == s.app && |s'.lists| == |s.lists|
            && forall x :: 0 <= x < |s.lists| ==> s'.lists[x].slots == s.lists[x].slots
  {
  }

  lemma CollectKeepsObjects(c: Config, s: State, t: nat)
    requires Objects(c, s) && CanFetch(s, t) && ListOk(s.spans, s.lists[s.threads[t].cl], s.threads[t].cl)
    ensures Objects(c, Collect(s, t))
  {
    var cl := s.threads[t].cl;
    var id := s.lists[cl].nonempty[0];
    assert id in s.lists[cl].nonempty;
    CollectShape(s, t, id, Portion(s, t));
    TakeKeeps(c, s, Collect(s, t), t, id, Portion(s, t), Collect(s, t).threads[t]);
  }

  lemma FetchKeepsObjects(c: Config, s: State, t: nat)
    requires Inv(c, s) && CanFetch(s, t)
    ensures Objects(c, FetchOne(s, t))
  {
    CollectKeepsObjects(c, s, t);
    var s1 := Collect(s, t);
    if |s1.threads[t].chain| >= s.threads[t].n {
      DeliverKeeps(c, s1, t, s.threads[t].cl, s1.threads[t].chain);
    }
  }

  lemma StepKeepsObjects(c: Config, s: State, t: nat, a: Action)
    requires Inv(c, s) && Enabled(c, s, t, a)
    ensures Objects(c, Step(c, s, t, a))
  {
    if IsQuiet(c, s, t, a) {
      QuietStep(c, s, t, a);
      var x :| Quiet(s, Step(c, s, t, a), t, x);
      QuietKeeps(c, s, Step(c, s, t, a), t, x);
    } else {
      match a
      case Allocate(o) => AllocateKeeps(c, s, t, o);
      case Free(o) => FreeKeeps(c, s, t, o);
      case StartInsert(cl, chain) => StartInsertKeeps(c, s, t, cl, chain);
      case StartInsertOne(cl, o) => StartInsertOneKeeps(c, s, t, cl, o);
      case NewSpan(id) => PopulatedKeeps(c, s, t, id);
      case Advance => AdvanceKeepsObjects(c, s, t);
    }
  }

  lemma AdvanceKeepsObjects(c: Config, s: State, t: nat)
    requires Inv(c, s) && Enabled(c, s, t, Advance) && !IsQuiet(c, s, t, Advance)
    ensures Objects(c, Step(c, s, t, Advance))
  {
    match s.threads[t]
    case InsertWait(_, _) => PushKeepsObjects(c, s, t);
    case HomeWait(_, _, _, _) => PushKeepsObjects(c, s, t);
    case VictimWait(_, _, _, _) => EvictKeepsObjects(c, s, t);
    case Release(_, _, _) => ReleaseKeepsObjects(c, s, t);
    case RemoveWait(_, _) => TakeSlotKeeps(c, s, t);
    case Fetch(cl, _, chain, _) =>
      if s.lists[cl].nonempty == [] {
        DeliverKeeps(c, s, t, cl, chain);
      } else {
        FetchKeepsObjects(c, s, t);
      }
  }

  // ----- counters

  /** Does the step leave spans and their lists alone? */
  predicate LeavesSpans(s: State, t: nat, a: Action)
    requires t < |s.threads|
  {
    match a
    case NewSpan(_) => false
    case Advance =>
      (match s.threads[t]
       case Release(_, chain, _) => chain == []
       case Fetch(cl, _, _, _) => cl < |s.lists| && s.lists[cl].nonempty == []
       case PopulateWait(_, _, _, _) => false
       case _ => true)
    case _ => true
  }

  ghost predicate SpansLeft(s: State, s': State, t: nat) {
    && t < |s.threads| && t < |s'.threads| && s'.spans == s.spans && Made(s'.threads[t]).None?
    && (!s.threads[t].Idle? ==>
          && Touched(s.threads[t]) < |s.lists| && Touched(s.threads[t]) < |s'.lists|
          && SameList(s.lists[Touched(s.threads[t])], s'.lists[Touched(s.threads[t])]))
  }

  lemma ChoiceLeavesSpans(c: Config, s: State, t: nat, a: Action)
    requires SelfOk(s, t) && Enabled(c, s, t, a) && LeavesSpans(s, t, a) && !a.Advance?
    ensures SpansLeft(s, Step(c, s, t, a), t)
  {
  }

  lemma InsertLeavesSpans(c: Config, s: State, t: nat)
    requires SelfOk(s, t) && Enabled(c, s, t, Advance) && InsertSide(s.threads[t])
    ensures SpansLeft(s, Step(c, s, t, Advance), t)
  {
  }

  lemma OtherLeavesSpans(c: Config, s: State, t: nat)
    requires SelfOk(s, t) && Enabled(c, s, t, Advance) && LeavesSpans(s, t, Advance) && !InsertSide(s.threads[t])
    ensures SpansLeft(s, Step(c, s, t, Advance), t)
  {
  }

  lemma StepKeepsCounts(c: Config, s: State, t: nat, a: Action)
    requires Inv(c, s) && Enabled(c, s, t, a)
    ensures Counts(c, Step(c, s, t, a))
  {
    if LeavesSpans(s, t, a) {
      StepMoves(c, s, t, a);
      if !a.Advance? {
        ChoiceLeavesSpans(c, s, t, a);
      } else if InsertSide(s.threads[t]) {
        InsertLeavesSpans(c, s, t);
      } else {
        OtherLeavesSpans(c, s, t);
      }
      CountsUntouched(c, s, Step(c, s, t, a), t);
    } else if a.NewSpan? {
      PopulatedCounts(c, s, t, a.id);
    } else if s.threads[t].Release? {
      ReleaseOneCounts(c, s, t);
    } else if s.threads[t].Fetch? {
      FetchOneCounts(c, s, t);
    } else {
      PopulateLockedCounts(c, s, t);
    }
  }

  // ----- runs

  lemma StepKeepsInv(c: Config, s: State, t: nat, a: Action)
    requires Inv(c, s) && Enabled(c, s, t, a)
    ensures Inv(c, Step(c, s, t, a))
  {
    StepMoves(c, s, t, a);
    StepKeepsLocks(c, s, t, a);
    StepKeepsSlots(c, s, t, a);
    StepKeepsObjects(c, s, t, a);
    StepKeepsCounts(c, s, t, a);
  }

  /** All lists empty and unlocked, no spans, every thread idle. Any sizes within their maximum will do: those that Init
      chooses are among them. */
  ghost predicate Initial(c: Config, s: State) {
    && c.Valid() && |c.batch| == |s.lists| && |s.caches| == |s.threads|
    && (forall cl :: 0 <= cl < |s.lists| ==>
          var l := s.lists[cl];
          && l.nonempty == l.empty == [] && l.slots == [] && l.numSpans == l.counter == 0 && l.lock.None?
          && 0 <= l.cacheSize <= l.maxCacheSize)
    && s.spans == map[] && s.place == map[] && s.app == {}
    && (forall t :: 0 <= t < |s.threads| ==> s.threads[t].Idle?)
    && (forall t :: 0 <= t < |s.caches| ==> s.caches[t] == {})
  }

  lemma InitialInv(c: Config, s: State)
    requires Initial(c, s)
    ensures Inv(c, s)
  {
    forall p
      ensures Chain(s, p) == []
    {
    }
    forall p, o
      ensures !In(s, p, o)
    {
    }
  }

  datatype Move = Move(t: nat, a: Action)

  /** A run: any interleaving of the threads' steps. */
  ghost predicate IsRun(c: Config, states: seq<State>, moves: seq<Move>) {
    && |states| == |moves| + 1 && Initial(c, states[0])
    && forall i :: 0 <= i < |moves| ==>
         Enabled(c, states[i], moves[i].t, moves[i].a)
         && states[i + 1] == Step(c, states[i], moves[i].t, moves[i].a)
  }

  /** The invariant holds in every state of every run, and the transfer caches together never exceed what they
      were given at the start. */
  lemma {:induction false} RunKeepsInv(c: Config, states: seq<State>, moves: seq<Move>, i: nat)
    requires IsRun(c, states, moves) && i < |states|
    ensures Inv(c, states[i])
    ensures Budget(states[i]) <= TotalSize(states[0].lists)
    ensures TotalSize(states[i].lists) <= TotalSize(states[0].lists)
  {
    if i == 0 {
      InitialInv(c, states[0]);
      NoCredits(states[0].threads);
    } else {
      RunKeepsInv(c, states, moves, i - 1);
      StepKeepsInv(c, states[i - 1], moves[i - 1].t, moves[i - 1].a);
      StepKeepsBudget(c, states[i - 1], moves[i - 1].t, moves[i - 1].a);
    }
    CreditsNonNegative(states[i].threads);
  }

  lemma {:induction false} NoCredits(threads: seq<PC>)
    requires forall t :: 0 <= t < |threads| ==> threads[t].Idle?
    ensures Credits(threads) == 0
  {
    if threads == [] {
    } else {
      NoCredits(threads[..|threads| - 1]);
    }
  }

  /** A span that a thread is handing to the page heap is set aside: no list has it, no thread gets it as a new one, and
      only this thread hands it over. */
  ghost predicate SetAside(s: State) {
    && (forall t :: 0 <= t < |s.threads| && s.threads[t].Delete? ==>
          s.threads[t].span in s.doomed && s.threads[t].span !in s.spans)
    && (forall t, u :: 0 <= t < u < |s.threads| && s.threads[t].Delete? && s.threads[u].Delete? ==>
          s.threads[t].span != s.threads[u].span)
  }

  lemma StepSetsAside(c: Config, s: State, t: nat, a: Action)
    requires Inv(c, s) && SetAside(s) && Enabled(c, s, t, a)
    ensures SetAside(Step(c, s, t, a))
  {
    var s' := Step(c, s, t, a);
    StepMoves(c, s, t, a);
    StepDooms(c, s, t, a);
    assert forall u :: 0 <= u < |s'.threads| && u != t ==> s'.threads[u] == s.threads[u];
  }

  /** What one step does to the spans and to those set aside. */
  ghost predicate Dooms(s: State, s': State, pc: PC, pc': PC) {
    && (pc'.Delete? ==> pc'.span in s.spans && pc'.span !in s'.spans && s'.doomed == s.doomed + {pc'.span})
    && (!pc'.Delete? ==> s'.doomed == if pc.Delete? then s.doomed - {pc.span} else s.doomed)
    && forall id :: id in s'.spans && id !in s.spans ==> id !in s.doomed
  }

  lemma ChoiceDooms(c: Config, s: State, t: nat, a: Action)
    requires SelfOk(s, t) && Enabled(c, s, t, a) && !a.Advance?
    ensures Dooms(s, Step(c, s, t, a), s.threads[t], Step(c, s, t, a).threads[t])
  {
  }

  lemma InsertDooms(c: Config, s: State, t: nat)
    requires SelfOk(s, t) && Enabled(c, s, t, Advance) && InsertSide(s.threads[t])
    ensures Dooms(s, Step(c, s, t, Advance), s.threads[t], Step(c, s, t, Advance).threads[t])
  {
  }

  lemma ReleaseDooms(c: Config, s: State, t: nat)
    requires SelfOk(s, t) && Enabled(c, s, t, Advance) && ReleaseSide(s.threads[t])
    ensures Dooms(s, Step(c, s, t, Advance), s.threads[t], Step(c, s, t, Advance).threads[t])
  {
  }

  lemma RemoveDooms(c: Config, s: State, t: nat)
    requires SelfOk(s, t) && Enabled(c, s, t, Advance) && !InsertSide(s.threads[t]) && !ReleaseSide(s.threads[t])
    ensures Dooms(s, Step(c, s, t, Advance), s.threads[t], Step(c, s, t, Advance).threads[t])
  {
  }

  lemma StepDooms(c: Config, s: State, t: nat, a: Action)
    requires SelfOk(s, t) && Enabled(c, s, t, a)
    ensures Dooms(s, Step(c, s, t, a), s.threads[t], Step(c, s, t, a).threads[t])
  {
    if !a.Advance? {
      ChoiceDooms(c, s, t, a);
    } else if InsertSide(s.threads[t]) {
      InsertDooms(c, s, t);
    } else if ReleaseSide(s.threads[t]) {
      ReleaseDooms(c, s, t);
    } else {
      RemoveDooms(c, s, t);
    }
  }

  /** That holds in every state of every run. */
  lemma {:induction false} RunSetsAside(c: Config, states: seq<State>, moves: seq<Move>, i: nat)
    requires IsRun(c, states, moves) && i < |states|
    ensures SetAside(states[i])
  {
    if i == 0 {
    } else {
      RunSetsAside(c, states, moves, i - 1);
      RunKeepsInv(c, states, moves, i - 1);
      StepSetsAside(c, states[i - 1], moves[i - 1].t, moves[i - 1].a);
    }
  }

  // ----- what the invariant says

  /** Conservation: an object of a live span is in one place, and in no other. */
  lemma ExactlyOnePlace(c: Config, s: State, o: Obj)
    requires Inv(c, s)
    ensures Live(c, s, o) <==> exists p :: In(s, p, o)
    ensures forall p, q :: In(s, p, o) && In(s, q, o) ==> p == q
  {
    assert o in s.place <==> Live(c, s, o);
    if o in s.place {
      assert In(s, s.place[o], o);
    }
  }

  /** A thread never holds the locks of two classes. */
  lemma OneLockPerThread(c: Config, s: State, a: nat, b: nat)
    requires Inv(c, s) && a < |s.lists| && b < |s.lists|
    requires s.lists[a].lock.Some? && s.lists[a].lock == s.lists[b].lock
    ensures a == b
  {
    assert Holds(s.threads[s.lists[a].lock.value]) == Some(a);
    assert Holds(s.threads[s.lists[b].lock.value]) == Some(b);
  }

  /** Whoever holds a lock, or works outside the locks, can go on. */
  lemma HolderCanStep(c: Config, s: State, t: nat)
    requires Inv(c, s) && t < |s.threads| && Holds(s.threads[t]).Some?
    ensures exists a :: Enabled(c, s, t, a)
  {
    var pc := s.threads[t];
    assert RefersTo(pc, |s.lists|) && ChainOk(c, pc);
    if pc.Evict? {
      assert Enabled(c, s, t, GiveUp);
    } else {
      if pc.Release? && pc.chain != [] {
        ComingBack(c, s, t);
      } else if pc.Fetch? && s.lists[pc.cl].nonempty != [] {
        assert ListOk(s.spans, s.lists[pc.cl], pc.cl) && s.lists[pc.cl].nonempty[0] in s.lists[pc.cl].nonempty;
      }
      assert Enabled(c, s, t, Advance);
    }
  }

  /** The class whose lock a thread waits for. */
  function AwaitedClass(pc: PC): Option<nat> {
    match pc
    case InsertWait(cl, _) => Some(cl)
    case VictimWait(_, _, _, v) => Some(v)
    case HomeWait(cl, _, _, _) => Some(cl)
    case RelockWait(cl, _, _) => Some(cl)
    case RemoveWait(cl, _) => Some(cl)
    case PopulateWait(cl, _, _, _) => Some(cl)
    case _ => None
  }

  /** No deadlock: a thread that cannot take a step waits for a lock whose holder can. */
  lemma NoDeadlock(c: Config, s: State, t: nat)
    requires Inv(c, s) && t < |s.threads| && !s.threads[t].Idle?
    ensures || (exists a :: Enabled(c, s, t, a))
            || (&& AwaitedClass(s.threads[t]).Some? && AwaitedClass(s.threads[t]).value < |s.lists|
                && var lock := s.lists[AwaitedClass(s.threads[t]).value].lock;
                && lock.Some? && lock.value < |s.threads| && exists a :: Enabled(c, s, lock.value, a))
  {
    var pc := s.threads[t];
    assert RefersTo(pc, |s.lists|);
    match AwaitedClass(pc)
    case Some(cl) =>
      if s.lists[cl].lock.Some? {
        HolderCanStep(c, s, s.lists[cl].lock.value);
      } else {
        assert ListSlotsOk(s.lists[cl], c.batch[cl]);
        assert Enabled(c, s, t, Advance);
      }
    case None =>
      if Holds(pc).Some? {
        HolderCanStep(c, s, t);
      } else if pc.PopulateOut? {
        assert Enabled(c, s, t, NoMemory);
      } else {
        assert Enabled(c, s, t, Advance);
      }
  }

  // ----- what RemoveRange returns

  /** The chain handed over when thread t completes a RemoveRange. */
  ghost function Delivered(s: State, t: nat): seq<Obj>
    requires t < |s.threads| && (s.threads[t].RemoveWait? || s.threads[t].Fetch?) && s.threads[t].cl < |s.lists|
    requires s.threads[t].RemoveWait? ==> s.lists[s.threads[t].cl].slots != []
  {
    var cl := s.threads[t].cl;
    if s.threads[t].RemoveWait? then s.lists[cl].slots[|s.lists[cl].slots| - 1]
    else if CanFetch(s, t) then Collect(s, t).threads[t].chain
    else s.threads[t].chain
  }

  /** The chain joins the thread cache: distinct objects of the class that the thread did not have. */
  ghost predicate Joins(s: State, s': State, t: nat, cl: nat, chain: seq<Obj>) {
    && t < |s.caches| && Distinct(chain)
    && s'.caches == s.caches[t := s.caches[t] + set o | o in chain]
    && (forall o :: o in chain ==> o !in s.caches[t])
    && (forall o :: o in chain ==> o.span in s.spans && s.spans[o.span].cl == cl)
  }

  lemma SlotJoins(c: Config, s: State, t: nat)
    requires Inv(c, s) && t < |s.caches| && t < |s.threads| && s.threads[t].RemoveWait? && Unlocked(s, s.threads[t].cl)
    requires s.threads[t].n == c.batch[s.threads[t].cl] && s.lists[s.threads[t].cl].slots != []
    ensures Joins(s, RemoveLocked(c, s, t), t, s.threads[t].cl, Delivered(s, t))
    ensures |Delivered(s, t)| == s.threads[t].n
  {
    var cl := s.threads[t].cl;
    assert ListSlotsOk(s.lists[cl], c.batch[cl]);
    ChainFacts(c, s, InSlot(cl, |s.lists[cl].slots| - 1), t, cl);
  }

  lemma CollectedJoins(c: Config, s: State, t: nat)
    requires Inv(c, s) && CanFetch(s, t) && |Collect(s, t).threads[t].chain| >= s.threads[t].n
    ensures Joins(s, FetchOne(s, t), t, s.threads[t].cl, Delivered(s, t))
    ensures |Delivered(s, t)| == s.threads[t].n
  {
    CollectKeepsObjects(c, s, t);
    var s1 := Collect(s, t);
    ChainFacts(c, s1, Transit(t), t, s.threads[t].cl);
    assert s1.caches == s.caches && forall id :: id in s1.spans ==> id in s.spans && s1.spans[id].cl == s.spans[id].cl;
  }

  lemma RemnantJoins(c: Config, s: State, t: nat)
    requires Inv(c, s) && t < |s.caches| && t < |s.threads| && s.threads[t].Fetch? && s.threads[t].cl < |s.lists|
    requires s.threads[t].again && s.lists[s.threads[t].cl].nonempty == []
    ensures Joins(s, FetchNone(s, t), t, s.threads[t].cl, Delivered(s, t))
    ensures |Delivered(s, t)| <= s.threads[t].n
  {
    assert ChainOk(c, s.threads[t]);
    ChainFacts(c, s, Transit(t), t, s.threads[t].cl);
  }

  /** RemoveRange returns distinct objects of the class, none of which the thread had, and never more than asked
      for; it returns fewer only when, right after trying to populate, there is still no span with free objects. */
  lemma RemoveReturns(c: Config, s: State, t: nat)
    requires Inv(c, s) && Enabled(c, s, t, Advance) && (s.threads[t].RemoveWait? || s.threads[t].Fetch?)
    requires Step(c, s, t, Advance).threads[t].Idle?
    ensures s.threads[t].cl < |s.lists| && (s.threads[t].RemoveWait? ==> s.lists[s.threads[t].cl].slots != [])
    ensures Joins(s, Step(c, s, t, Advance), t, s.threads[t].cl, Delivered(s, t))
    ensures |Delivered(s, t)| <= s.threads[t].n
    ensures |Delivered(s, t)| < s.threads[t].n ==>
              s.threads[t].Fetch? && s.threads[t].again && s.lists[s.threads[t].cl].nonempty == []
  {
    var pc := s.threads[t];
    assert RefersTo(pc, |s.lists|);
    if pc.RemoveWait? {
      SlotJoins(c, s, t);
    } else if s.lists[pc.cl].nonempty != [] {
      CollectedJoins(c, s, t);
    } else {
      RemnantJoins(c, s, t);
    }
  }

  lemma ChainFacts(c: Config, s: State, p: Place, t: nat, cl: nat)
    requires Objects(c, s) && !p.Cached? && !p.App? && !p.InSpan? && !p.Victim?
    requires p.InSlot? ==> p.cl == cl
    requires p.Transit? ==> p.t < |s.threads| && OwnClass(s.threads[p.t]) == cl
    ensures Distinct(Chain(s, p))
    ensures forall o :: o in Chain(s, p) ==> o.span in s.spans && s.spans[o.span].cl == cl
    ensures t < |s.caches| ==> forall o :: o in Chain(s, p) ==> o !in s.caches[t]
  {
    forall o | o in Chain(s, p)
      ensures o.span in s.spans && s.spans[o.span].cl == cl
      ensures t < |s.caches| ==> o !in s.caches[t]
    {
      assert In(s, p, o) && Suits(s, o, s.place[o]);
      assert !In(s, Cached(t), o);
    }
  }

  // ----- stealing without interference

  /** While a thread looks for room elsewhere its own cache is below its maximum. */
  ghost predicate RoomAtHome(s: State, t: nat)
    requires t < |s.threads|
  {
    match s.threads[t]
    case Evict(cl, _, _) => HasRoom(s, cl)
    case VictimWait(cl, _, _, v) => HasRoom(s, cl) && v != cl
    case HomeWait(cl, _, _, _) => HasRoom(s, cl)
    case Release(_, _, Resume(home, _)) => HasRoom(s, home)
    case Delete(_, _, Resume(home, _), _) => HasRoom(s, home)
    case RelockWait(_, _, Resume(home, _)) => HasRoom(s, home)
    case _ => true
  }

  predicate HasRoom(s: State, cl: nat) { cl < |s.lists| && s.lists[cl].cacheSize < s.lists[cl].maxCacheSize }

  lemma InsertKeepsRoom(c: Config, s: State, t: nat)
    requires Inv(c, s) && Enabled(c, s, t, Advance) && RoomAtHome(s, t) && InsertSide(s.threads[t])
    ensures RoomAtHome(Step(c, s, t, Advance), t)
  {
    var pc := s.threads[t];
    assert ListSlotsOk(s.lists[pc.cl], c.batch[pc.cl]);
  }

  lemma ChoicesKeepRoom(c: Config, s: State, t: nat, a: Action)
    requires Enabled(c, s, t, a) && RoomAtHome(s, t) && !a.Advance?
    ensures RoomAtHome(Step(c, s, t, a), t)
  {
  }

  lemma ReleaseKeepsRoom(c: Config, s: State, t: nat)
    requires Enabled(c, s, t, Advance) && RoomAtHome(s, t) && ReleaseSide(s.threads[t])
    ensures RoomAtHome(Step(c, s, t, Advance), t)
  {
  }

  lemma RemoveKeepsRoom(c: Config, s: State, t: nat)
    requires Enabled(c, s, t, Advance) && !InsertSide(s.threads[t]) && !ReleaseSide(s.threads[t])
    ensures RoomAtHome(Step(c, s, t, Advance), t)
  {
  }

  /** Steps of one thread alone, from a state where all invariants hold. */
  ghost predicate IsSolo(c: Config, states: seq<State>, acts: seq<Action>, t: nat) {
    && |states| == |acts| + 1 && Inv(c, states[0]) && t < |states[0].threads|
    && forall i :: 0 <= i < |acts| ==>
         Enabled(c, states[i], t, acts[i]) && states[i + 1] == Step(c, states[i], t, acts[i])
  }

  lemma {:induction false} SoloKeepsBudget(c: Config, states: seq<State>, acts: seq<Action>, t: nat, i: nat)
    requires IsSolo(c, states, acts, t) && RoomAtHome(states[0], t) && i < |states|
    ensures Inv(c, states[i]) && t < |states[i].threads| && RoomAtHome(states[i], t)
    ensures Budget(states[i]) == Budget(states[0])
    ensures Credits(states[i].threads) - Credit(states[i].threads[t])
         == Credits(states[0].threads) - Credit(states[0].threads[t])
  {
    if i == 0 {
    } else {
      SoloKeepsBudget(c, states, acts, t, i - 1);
      var s, a := states[i - 1], acts[i - 1];
      StepKeepsInv(c, s, t, a);
      StepMoves(c, s, t, a);
      StepKeepsBudget(c, s, t, a);
      CreditsUpdate(s.threads, t, states[i].threads[t]);
      if !a.Advance? {
        ChoicesKeepRoom(c, s, t, a);
      } else if InsertSide(s.threads[t]) {
        InsertKeepsRoom(c, s, t);
      } else if ReleaseSide(s.threads[t]) {
        ReleaseKeepsRoom(c, s, t);
      } else {
        RemoveKeepsRoom(c, s, t);
      }
    }
  }

  /** Without interference, inserting a chain leaves the total size of the transfer caches exactly as it was, from
      its start to any point where the thread has no eviction under way. */
  lemma SoloKeepsTotal(c: Config, states: seq<State>, acts: seq<Action>, t: nat)
    requires IsSolo(c, states, acts, t) && states[0].threads[t].InsertWait?
    requires t < |states[|acts|].threads| && Credit(states[|acts|].threads[t]) == 0
    ensures TotalSize(states[|acts|].lists) == TotalSize(states[0].lists)
  {
    SoloKeepsBudget(c, states, acts, t, |acts|);
  }
}
