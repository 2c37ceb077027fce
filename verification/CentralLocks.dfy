/** Locks and transfer-cache sizes: what every interleaving keeps. */
module CentralLocks {
  import opened Common
  import opened Central

  // ----- locks

  /** Every class a thread refers to exists. */
  ghost predicate ClassesOk(s: State) {
    forall t :: 0 <= t < |s.threads| ==> RefersTo(s.threads[t], |s.lists|)
  }

  predicate RefersTo(pc: PC, n: nat) {
    && (!pc.Idle? ==> pc.cl < n)
    && (pc.VictimWait? ==> pc.victim < n)
    && ((pc.Release? || pc.Delete? || pc.RelockWait?) && pc.then_.Resume? ==> pc.then_.home < n)
  }

  /** A lock is held by the thread that is at a point where it holds it, and by no other; a thread is never at a
      point where it holds two. */
  ghost predicate LocksOk(s: State) {
    && (forall cl :: 0 <= cl < |s.lists| && s.lists[cl].lock.Some? ==>
          s.lists[cl].lock.value < |s.threads| && Holds(s.threads[s.lists[cl].lock.value]) == Some(cl))
    && (forall t :: 0 <= t < |s.threads| && Holds(s.threads[t]).Some? ==>
          Holds(s.threads[t]).value < |s.lists| && s.lists[Holds(s.threads[t]).value].lock == Some(t))
  }

  /** The one class whose list a step may change. */
  function Touched(pc: PC): nat {
    match pc
    case Idle => 0
    case VictimWait(_, _, _, v) => v
    case _ => pc.cl
  }

  /** A step moves one thread and changes the list of at most one class. */
  ghost predicate OneThreadOneClass(s: State, s': State, t: nat) {
    && t < |s.threads| == |s'.threads| && s'.threads == s.threads[t := s'.threads[t]]
    && |s'.lists| == |s.lists| && |s'.caches| == |s.caches|
    && (if s.threads[t].Idle? then s'.lists == s.lists
        else
          && Touched(s.threads[t]) < |s.lists|
          && s'.lists == s.lists[Touched(s.threads[t]) := s'.lists[Touched(s.threads[t])]])
  }

  /** What that thread may do to that class: take its lock, drop it or keep it. */
  ghost predicate LockMoves(pc: PC, pc': PC, t: nat, l: List, l': List) {
    var x := Touched(pc);
    && (Holds(pc) == Some(x) || (Holds(pc) == None && (l.lock == None || l'.lock == l.lock)))
    && (Holds(pc') == None || Holds(pc') == Some(x))
    && (Holds(pc') == Some(x) ==> l'.lock == Some(t))
    && (Holds(pc') == None ==> l'.lock == if Holds(pc) == None then l.lock else None)
  }

  predicate InsertSide(pc: PC) { pc.InsertWait? || pc.VictimWait? || pc.HomeWait? }
  predicate ReleaseSide(pc: PC) { pc.Release? || pc.Delete? || pc.RelockWait? }

  ghost predicate LocalMoves(c: Config, s: State, s': State, t: nat) {
    && OneThreadOneClass(s, s', t)
    && RefersTo(s'.threads[t], |s.lists|)
    && if s.threads[t].Idle? then Holds(s'.threads[t]) == None
       else LockMoves(s.threads[t], s'.threads[t], t, s.lists[Touched(s.threads[t])], s'.lists[Touched(s.threads[t])])
  }

  /** The part of the invariant a thread needs about itself. */
  ghost predicate SelfOk(s: State, t: nat) {
    && t < |s.threads| && RefersTo(s.threads[t], |s.lists|)
    && (Holds(s.threads[t]).Some? ==> s.lists[Holds(s.threads[t]).value].lock == Some(t))
  }

  lemma ChoiceMoves(c: Config, s: State, t: nat, a: Action)
    requires SelfOk(s, t) && Enabled(c, s, t, a) && !a.Advance?
    ensures LocalMoves(c, s, Step(c, s, t, a), t)
  {
  }

  lemma InsertMoves(c: Config, s: State, t: nat)
    requires SelfOk(s, t) && Enabled(c, s, t, Advance) && InsertSide(s.threads[t])
    ensures LocalMoves(c, s, Step(c, s, t, Advance), t)
  {
  }

  lemma ReleaseMoves(c: Config, s: State, t: nat)
    requires SelfOk(s, t) && Enabled(c, s, t, Advance) && ReleaseSide(s.threads[t])
    ensures LocalMoves(c, s, Step(c, s, t, Advance), t)
  {
  }

  lemma FetchMoves(c: Config, s: State, t: nat)
    requires SelfOk(s, t) && t < |s.caches| && s.threads[t].Fetch?
    ensures s.lists[s.threads[t].cl].nonempty == [] ==> LocalMoves(c, s, FetchNone(s, t), t)
    ensures CanFetch(s, t) ==> LocalMoves(c, s, FetchOne(s, t), t)
  {
  }

  lemma RemoveMoves(c: Config, s: State, t: nat)
    requires SelfOk(s, t) && Enabled(c, s, t, Advance)
    requires !InsertSide(s.threads[t]) && !ReleaseSide(s.threads[t])
    ensures LocalMoves(c, s, Step(c, s, t, Advance), t)
  {
    if s.threads[t].Fetch? {
      FetchMoves(c, s, t);
    }
  }

  lemma StepMoves(c: Config, s: State, t: nat, a: Action)
    requires SelfOk(s, t) && Enabled(c, s, t, a)
    ensures LocalMoves(c, s, Step(c, s, t, a), t)
  {
    if !a.Advance? {
      ChoiceMoves(c, s, t, a);
    } else if InsertSide(s.threads[t]) {
      InsertMoves(c, s, t);
    } else if ReleaseSide(s.threads[t]) {
      ReleaseMoves(c, s, t);
    } else {
      RemoveMoves(c, s, t);
    }
  }

  /** Over every interleaving a lock is held by the one thread that is at a point where it holds it. */
  lemma StepKeepsLocks(c: Config, s: State, t: nat, a: Action)
    requires Enabled(c, s, t, a) && ClassesOk(s) && LocksOk(s)
    ensures ClassesOk(Step(c, s, t, a)) && LocksOk(Step(c, s, t, a))
  {
    StepMoves(c, s, t, a);
    MovesKeepLocks(c, s, Step(c, s, t, a), t);
  }

  lemma MovesKeepLocks(c: Config, s: State, s': State, t: nat)
    requires ClassesOk(s) && LocksOk(s) && LocalMoves(c, s, s', t)
    ensures ClassesOk(s') && LocksOk(s')
  {
    var x := Touched(s.threads[t]);
    forall cl | 0 <= cl < |s'.lists| && s'.lists[cl].lock.Some?
      ensures s'.lists[cl].lock.value < |s'.threads| && Holds(s'.threads[s'.lists[cl].lock.value]) == Some(cl)
    {
      assert s.threads[t].Idle? || cl != x ==> s'.lists[cl] == s.lists[cl];
    }
    forall u | 0 <= u < |s'.threads| && Holds(s'.threads[u]).Some?
      ensures Holds(s'.threads[u]).value < |s'.lists| && s'.lists[Holds(s'.threads[u]).value].lock == Some(u)
    {
      assert u != t ==> s'.threads[u] == s.threads[u];
    }
  }

  // ----- transfer cache sizes

  ghost predicate SlotsOk(c: Config, s: State) {
    && |c.batch| == |s.lists|
    && forall cl :: 0 <= cl < |s.lists| ==> ListSlotsOk(s.lists[cl], c.batch[cl])
  }

  ghost predicate ListSlotsOk(l: List, batch: nat) {
    && |l.slots| <= l.cacheSize <= l.maxCacheSize
    && forall k :: 0 <= k < |l.slots| ==> |l.slots[k]| == batch
  }

  /** A chain on its way to a slot has the batch size. */
  ghost predicate ChainsOk(c: Config, s: State) {
    && |c.batch| == |s.lists|
    && forall t :: 0 <= t < |s.threads| ==> ChainOk(c, s.threads[t])
  }

  predicate ChainOk(c: Config, pc: PC) {
    match pc
    case Evict(cl, chain, _) => cl < |c.batch| && |chain| == c.batch[cl]
    case VictimWait(cl, chain, _, _) => cl < |c.batch| && |chain| == c.batch[cl]
    case HomeWait(cl, chain, _, _) => cl < |c.batch| && |chain| == c.batch[cl]
    case Release(_, _, Resume(home, chain)) => home < |c.batch| && |chain| == c.batch[home]
    case Delete(_, _, Resume(home, chain), _) => home < |c.batch| && |chain| == c.batch[home]
    case RelockWait(_, _, Resume(home, chain)) => home < |c.batch| && |chain| == c.batch[home]
    case Fetch(_, n, chain, _) => |chain| < n
    case PopulateOut(_, n, chain) => |chain| < n
    case PopulateWait(_, n, chain, _) => |chain| < n
    case RemoveWait(_, n) => n >= 1
    case _ => true
  }

  /** The local effect on sizes: the class touched stays within its bounds, and room is only passed on. */
  ghost predicate LocalSizes(c: Config, s: State, s': State, t: nat) {
    && t < |s.threads| == |s'.threads| && ChainOk(c, s'.threads[t])
    && if s.threads[t].Idle? then Credit(s'.threads[t]) == 0
       else
         var x := Touched(s.threads[t]);
         && x < |s.lists| == |s'.lists| == |c.batch|
         && ListSlotsOk(s'.lists[x], c.batch[x])
         && s'.lists[x].cacheSize + Credit(s'.threads[t])
            == s.lists[x].cacheSize + Credit(s.threads[t]) - (if ComesHomeTooLate(s, t) then 1 else 0)
         && s'.lists[x].maxCacheSize == s.lists[x].maxCacheSize
  }

  /** A credit comes home to a cache that has meanwhile grown to its maximum. */
  predicate ComesHomeTooLate(s: State, t: nat)
    requires t < |s.threads|
  {
    var pc := s.threads[t];
    pc.HomeWait? && pc.won && pc.cl < |s.lists| && s.lists[pc.cl].cacheSize >= s.lists[pc.cl].maxCacheSize
  }

  ghost predicate SelfSizesOk(c: Config, s: State, t: nat) {
    && SelfOk(s, t) && |c.batch| == |s.lists| && ChainOk(c, s.threads[t])
    && (!s.threads[t].Idle? ==> ListSlotsOk(s.lists[Touched(s.threads[t])], c.batch[Touched(s.threads[t])]))
  }

  lemma ChoiceSizes(c: Config, s: State, t: nat, a: Action)
    requires SelfSizesOk(c, s, t) && Enabled(c, s, t, a) && !a.Advance?
    ensures LocalSizes(c, s, Step(c, s, t, a), t)
  {
  }

  lemma InsertWaitSizes(c: Config, s: State, t: nat)
    requires SelfSizesOk(c, s, t) && s.threads[t].InsertWait? && Unlocked(s, s.threads[t].cl)
    ensures LocalSizes(c, s, InsertLocked(c, s, t), t)
  {
  }

  lemma VictimWaitSizes(c: Config, s: State, t: nat)
    requires SelfSizesOk(c, s, t) && s.threads[t].VictimWait? && Unlocked(s, s.threads[t].victim)
    ensures LocalSizes(c, s, VictimLocked(s, t), t)
  {
  }

  lemma HomeWaitSizes(c: Config, s: State, t: nat)
    requires SelfSizesOk(c, s, t) && s.threads[t].HomeWait? && Unlocked(s, s.threads[t].cl)
    ensures LocalSizes(c, s, HomeLocked(s, t), t)
  {
  }

  lemma InsertSizes(c: Config, s: State, t: nat)
    requires SelfSizesOk(c, s, t) && Enabled(c, s, t, Advance) && InsertSide(s.threads[t])
    ensures LocalSizes(c, s, Step(c, s, t, Advance), t)
  {
    match s.threads[t]
    case InsertWait(_, _) => InsertWaitSizes(c, s, t);
    case VictimWait(_, _, _, _) => VictimWaitSizes(c, s, t);
    case HomeWait(_, _, _, _) => HomeWaitSizes(c, s, t);
  }

  lemma ReleaseSizes(c: Config, s: State, t: nat)
    requires SelfSizesOk(c, s, t) && Enabled(c, s, t, Advance) && ReleaseSide(s.threads[t])
    ensures LocalSizes(c, s, Step(c, s, t, Advance), t)
  {
  }

  lemma RemoveWaitSizes(c: Config, s: State, t: nat)
    requires SelfSizesOk(c, s, t) && t < |s.caches| && s.threads[t].RemoveWait? && Unlocked(s, s.threads[t].cl)
    ensures LocalSizes(c, s, RemoveLocked(c, s, t), t)
  {
  }

  lemma FetchSizes(c: Config, s: State, t: nat)
    requires SelfSizesOk(c, s, t) && t < |s.caches| && s.threads[t].Fetch?
    ensures s.lists[s.threads[t].cl].nonempty == [] ==> LocalSizes(c, s, FetchNone(s, t), t)
    ensures CanFetch(s, t) ==> LocalSizes(c, s, FetchOne(s, t), t)
  {
  }

  lemma RemoveSizes(c: Config, s: State, t: nat)
    requires SelfSizesOk(c, s, t) && Enabled(c, s, t, Advance)
    requires !InsertSide(s.threads[t]) && !ReleaseSide(s.threads[t])
    ensures LocalSizes(c, s, Step(c, s, t, Advance), t)
  {
    match s.threads[t]
    case RemoveWait(_, _) => RemoveWaitSizes(c, s, t);
    case Fetch(_, _, _, _) => FetchSizes(c, s, t);
    case PopulateWait(_, _, _, _) =>
  }

  lemma StepSizes(c: Config, s: State, t: nat, a: Action)
    requires SelfSizesOk(c, s, t) && Enabled(c, s, t, a)
    ensures LocalSizes(c, s, Step(c, s, t, a), t)
  {
    if !a.Advance? {
      ChoiceSizes(c, s, t, a);
    } else if InsertSide(s.threads[t]) {
      InsertSizes(c, s, t);
    } else if ReleaseSide(s.threads[t]) {
      ReleaseSizes(c, s, t);
    } else {
      RemoveSizes(c, s, t);
    }
  }

  /** Over every interleaving, each class keeps used slots <= cache size <= maximum and full chains in its slots. */
  lemma StepKeepsSlots(c: Config, s: State, t: nat, a: Action)
    requires Enabled(c, s, t, a) && ClassesOk(s) && LocksOk(s) && SlotsOk(c, s) && ChainsOk(c, s)
    ensures SlotsOk(c, Step(c, s, t, a)) && ChainsOk(c, Step(c, s, t, a))
  {
    StepMoves(c, s, t, a);
    StepSizes(c, s, t, a);
    SizesKeepSlots(c, s, Step(c, s, t, a), t);
  }

  lemma SizesKeepSlots(c: Config, s: State, s': State, t: nat)
    requires SlotsOk(c, s) && ChainsOk(c, s) && OneThreadOneClass(s, s', t) && LocalSizes(c, s, s', t)
    ensures SlotsOk(c, s') && ChainsOk(c, s')
  {
    forall u | 0 <= u < |s'.threads|
      ensures ChainOk(c, s'.threads[u])
    {
      assert u != t ==> s'.threads[u] == s.threads[u];
    }
    forall cl | 0 <= cl < |s'.lists|
      ensures ListSlotsOk(s'.lists[cl], c.batch[cl])
    {
      assert s.threads[t].Idle? || cl != Touched(s.threads[t]) ==> s'.lists[cl] == s.lists[cl];
    }
  }

  // ----- the total of all transfer caches

  ghost function TotalSize(lists: seq<List>): int {
    if lists == [] then 0 else TotalSize(lists[..|lists| - 1]) + lists[|lists| - 1].cacheSize
  }

  /** A thread that has shrunk another cache and has not yet grown its own. */
  function Credit(pc: PC): int {
    match pc
    case HomeWait(_, _, _, won) => if won then 1 else 0
    case Release(_, _, k) => if k.Resume? then 1 else 0
    case Delete(_, _, k, _) => if k.Resume? then 1 else 0
    case RelockWait(_, _, k) => if k.Resume? then 1 else 0
    case _ => 0
  }

  ghost function Credits(threads: seq<PC>): int {
    if threads == [] then 0 else Credits(threads[..|threads| - 1]) + Credit(threads[|threads| - 1])
  }

  ghost function Budget(s: State): int { TotalSize(s.lists) + Credits(s.threads) }

  lemma {:induction false} TotalUpdate(lists: seq<List>, cl: nat, l: List)
    requires cl < |lists|
    ensures TotalSize(lists[cl := l]) == TotalSize(lists) - lists[cl].cacheSize + l.cacheSize
  {
    var n := |lists| - 1;
    if cl < n {
      assert lists[cl := l][..n] == lists[..n][cl := l];
      TotalUpdate(lists[..n], cl, l);
    } else {
      assert lists[cl := l][..n] == lists[..n];
    }
  }

  lemma {:induction false} CreditsUpdate(threads: seq<PC>, t: nat, pc: PC)
    requires t < |threads|
    ensures Credits(threads[t := pc]) == Credits(threads) - Credit(threads[t]) + Credit(pc)
  {
    var n := |threads| - 1;
    if t < n {
      assert threads[t := pc][..n] == threads[..n][t := pc];
      CreditsUpdate(threads[..n], t, pc);
    } else {
      assert threads[t := pc][..n] == threads[..n];
    }
  }

  lemma {:induction false} CreditsNonNegative(threads: seq<PC>)
    ensures Credits(threads) >= 0
  {
    if threads == [] {
    } else {
      CreditsNonNegative(threads[..|threads| - 1]);
    }
  }

  /** No step creates room: the sizes of all caches, with the credits under way, stay the same, except that one unit is
      lost exactly when a thread comes home with a credit and finds its own cache at its maximum. */
  lemma StepKeepsBudget(c: Config, s: State, t: nat, a: Action)
    requires Enabled(c, s, t, a) && ClassesOk(s) && LocksOk(s) && SlotsOk(c, s) && ChainsOk(c, s)
    ensures Budget(Step(c, s, t, a)) == Budget(s) - if ComesHomeTooLate(s, t) then 1 else 0
  {
    var s' := Step(c, s, t, a);
    StepMoves(c, s, t, a);
    StepSizes(c, s, t, a);
    CreditsUpdate(s.threads, t, s'.threads[t]);
    if !s.threads[t].Idle? {
      TotalUpdate(s.lists, Touched(s.threads[t]), s'.lists[Touched(s.threads[t])]);
    }
  }
}
