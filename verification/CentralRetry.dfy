/** How InsertRange looks for room: it tries twice, the second time by force, before a batch is released to its
    spans. */
module CentralRetry {
  import opened Common
  import opened Central
  import opened CentralLocks
  import opened CentralObjects
  import opened CentralCounts
  import opened CentralRuns
  import opened CentralLoss

  // ----- what a thread has tried, in every run

  /** Thread t is in the same call from state j to state i. */
  ghost predicate SameCall(states: seq<State>, t: nat, j: int, i: int) {
    && 0 <= j <= i < |states|
    && forall k :: j <= k <= i ==> t < |states[k].threads| && !states[k].threads[t].Idle?
  }

  ghost predicate TriedAt(states: seq<State>, t: nat, j: int, i: int, cl: nat, chain: seq<Obj>) {
    SameCall(states, t, j, i) && states[j].threads[t] == Evict(cl, chain, false)
  }

  ghost predicate ForcedAt(states: seq<State>, t: nat, j: int, k: int, i: int, cl: nat, chain: seq<Obj>) {
    TriedAt(states, t, j, i, cl, chain) && j < k <= i && states[k].threads[t] == Evict(cl, chain, true)
  }

  /** In the call under way at state i, the thread has looked for room for the chain. */
  ghost predicate Tried(states: seq<State>, t: nat, i: int, cl: nat, chain: seq<Obj>) {
    exists j :: TriedAt(states, t, j, i, cl, chain)
  }

  /** And then once more, by force. */
  ghost predicate Forced(states: seq<State>, t: nat, i: int, cl: nat, chain: seq<Obj>) {
    exists j, k :: ForcedAt(states, t, j, k, i, cl, chain)
  }

  /** What the position of thread t says about the past. */
  ghost predicate Past(states: seq<State>, t: nat, i: int)
    requires 0 <= i < |states| && t < |states[i].threads|
  {
    match states[i].threads[t]
    case Evict(cl, chain, force) => Tried(states, t, i, cl, chain) && (force ==> Forced(states, t, i, cl, chain))
    case VictimWait(cl, chain, force, _) =>
      Tried(states, t, i, cl, chain) && (force ==> Forced(states, t, i, cl, chain))
    case HomeWait(cl, chain, force, _) => Tried(states, t, i, cl, chain) && (force ==> Forced(states, t, i, cl, chain))
    case Release(_, _, Resume(home, chain)) => Forced(states, t, i, home, chain)
    case Delete(_, _, Resume(home, chain), _) => Forced(states, t, i, home, chain)
    case RelockWait(_, _, Resume(home, chain)) => Forced(states, t, i, home, chain)
    case _ => true
  }

  lemma TriedStill(states: seq<State>, t: nat, i: int, cl: nat, chain: seq<Obj>)
    requires 0 <= i < |states| - 1 && t < |states[i + 1].threads| && !states[i + 1].threads[t].Idle?
    ensures Tried(states, t, i, cl, chain) ==> Tried(states, t, i + 1, cl, chain)
    ensures Forced(states, t, i, cl, chain) ==> Forced(states, t, i + 1, cl, chain)
  {
    if Tried(states, t, i, cl, chain) {
      var j :| TriedAt(states, t, j, i, cl, chain);
      assert TriedAt(states, t, j, i + 1, cl, chain);
    }
    if Forced(states, t, i, cl, chain) {
      var j, k :| ForcedAt(states, t, j, k, i, cl, chain);
      assert ForcedAt(states, t, j, k, i + 1, cl, chain);
    }
  }

  /** Arriving at a point where room is looked for. */
  lemma Arrives(states: seq<State>, t: nat, i: int, cl: nat, chain: seq<Obj>)
    requires 0 <= i < |states| - 1 && t < |states[i + 1].threads|
    ensures states[i + 1].threads[t] == Evict(cl, chain, false) ==> Tried(states, t, i + 1, cl, chain)
    ensures states[i + 1].threads[t] == Evict(cl, chain, true) && Tried(states, t, i, cl, chain) ==>
              Forced(states, t, i + 1, cl, chain)
  {
    if states[i + 1].threads[t] == Evict(cl, chain, false) {
      assert TriedAt(states, t, i + 1, i + 1, cl, chain);
    }
    if states[i + 1].threads[t] == Evict(cl, chain, true) && Tried(states, t, i, cl, chain) {
      var j :| TriedAt(states, t, j, i, cl, chain);
      assert ForcedAt(states, t, j, i + 1, i + 1, cl, chain);
    }
  }

  // ----- one step

  /** How a thread that looks for room comes to where it is. */
  predicate CameFrom(pc: PC, pc': PC) {
    match pc'
    case Evict(cl, chain, force) =>
      if force then pc == Evict(cl, chain, false) || pc == HomeWait(cl, chain, false, false)
      else pc == InsertWait(cl, chain)
    case VictimWait(cl, chain, force, _) => pc == Evict(cl, chain, force)
    case HomeWait(cl, chain, force, won) =>
      || (pc.VictimWait? && pc.cl == cl && pc.chain == chain && pc.force == force)
      || (force && won && pc.Release? && pc.then_ == Resume(cl, chain))
    case Release(_, _, Resume(home, chain)) =>
      || (ReleaseSide(pc) && pc.then_ == Resume(home, chain))
      || (pc.VictimWait? && pc.cl == home && pc.chain == chain && pc.force)
    case Delete(_, _, Resume(home, chain), _) => ReleaseSide(pc) && pc.then_ == Resume(home, chain)
    case RelockWait(_, _, Resume(home, chain)) => ReleaseSide(pc) && pc.then_ == Resume(home, chain)
    case _ => true
  }

  lemma ChoiceCame(c: Config, s: State, t: nat, a: Action)
    requires SelfOk(s, t) && Enabled(c, s, t, a) && !a.Advance?
    ensures CameFrom(s.threads[t], Step(c, s, t, a).threads[t])
  {
  }

  lemma InsertCame(c: Config, s: State, t: nat)
    requires SelfOk(s, t) && Enabled(c, s, t, Advance) && InsertSide(s.threads[t])
    ensures CameFrom(s.threads[t], Step(c, s, t, Advance).threads[t])
  {
  }

  lemma ReleaseCame(c: Config, s: State, t: nat)
    requires SelfOk(s, t) && Enabled(c, s, t, Advance) && ReleaseSide(s.threads[t])
    ensures CameFrom(s.threads[t], Step(c, s, t, Advance).threads[t])
  {
  }

  lemma RemoveCame(c: Config, s: State, t: nat)
    requires SelfOk(s, t) && Enabled(c, s, t, Advance) && !InsertSide(s.threads[t]) && !ReleaseSide(s.threads[t])
    ensures CameFrom(s.threads[t], Step(c, s, t, Advance).threads[t])
  {
  }

  lemma StepCame(c: Config, s: State, t: nat, a: Action)
    requires SelfOk(s, t) && Enabled(c, s, t, a)
    ensures CameFrom(s.threads[t], Step(c, s, t, a).threads[t])
  {
    if !a.Advance? {
      ChoiceCame(c, s, t, a);
    } else if InsertSide(s.threads[t]) {
      InsertCame(c, s, t);
    } else if ReleaseSide(s.threads[t]) {
      ReleaseCame(c, s, t);
    } else {
      RemoveCame(c, s, t);
    }
  }

  // ----- every run

  /** The past of a thread after a step of its own. */
  lemma PastStep(states: seq<State>, t: nat, i: int)
    requires 0 <= i < |states| - 1 && t < |states[i].threads| && t < |states[i + 1].threads|
    requires Past(states, t, i) && CameFrom(states[i].threads[t], states[i + 1].threads[t])
    ensures Past(states, t, i + 1)
  {
    match states[i + 1].threads[t]
    case Evict(cl, chain, _) =>
      TriedStill(states, t, i, cl, chain);
      Arrives(states, t, i, cl, chain);
    case VictimWait(cl, chain, _, _) => TriedStill(states, t, i, cl, chain);
    case HomeWait(cl, chain, _, _) => ForcedIsTried(states, t, i, cl, chain); TriedStill(states, t, i, cl, chain);
    case Release(_, _, Resume(home, chain)) => TriedStill(states, t, i, home, chain);
    case Delete(_, _, Resume(home, chain), _) => TriedStill(states, t, i, home, chain);
    case RelockWait(_, _, Resume(home, chain)) => TriedStill(states, t, i, home, chain);
    case _ =>
  }

  lemma ForcedIsTried(states: seq<State>, t: nat, i: int, cl: nat, chain: seq<Obj>)
    ensures Forced(states, t, i, cl, chain) ==> Tried(states, t, i, cl, chain)
  {
    if Forced(states, t, i, cl, chain) {
      var j, k :| ForcedAt(states, t, j, k, i, cl, chain);
    }
  }

  /** And after a step of another thread. */
  lemma PastStays(states: seq<State>, t: nat, i: int)
    requires 0 <= i < |states| - 1 && t < |states[i].threads| && t < |states[i + 1].threads|
    requires Past(states, t, i) && states[i + 1].threads[t] == states[i].threads[t]
    ensures Past(states, t, i + 1)
  {
    match states[i + 1].threads[t]
    case Evict(cl, chain, _) => TriedStill(states, t, i, cl, chain);
    case VictimWait(cl, chain, _, _) => TriedStill(states, t, i, cl, chain);
    case HomeWait(cl, chain, _, _) => TriedStill(states, t, i, cl, chain);
    case Release(_, _, Resume(home, chain)) => TriedStill(states, t, i, home, chain);
    case Delete(_, _, Resume(home, chain), _) => TriedStill(states, t, i, home, chain);
    case RelockWait(_, _, Resume(home, chain)) => TriedStill(states, t, i, home, chain);
    case _ =>
  }

  lemma {:induction false} RunHasPast(c: Config, states: seq<State>, moves: seq<Move>, t: nat, i: nat)
    requires IsRun(c, states, moves) && i < |states| && t < |states[i].threads|
    ensures Past(states, t, i)
  {
    if i == 0 {
      assert states[0].threads[t].Idle?;
    } else {
      var m := moves[i - 1];
      RunKeepsInv(c, states, moves, i - 1);
      StepMoves(c, states[i - 1], m.t, m.a);
      RunHasPast(c, states, moves, t, i - 1);
      if m.t == t {
        StepCame(c, states[i - 1], t, m.a);
        PastStep(states, t, i - 1);
      } else {
        PastStays(states, t, i - 1);
      }
    }
  }

  /** The class has all its slots in use and may not have more. */
  predicate AtMaximum(s: State, cl: nat) {
    cl < |s.lists| && |s.lists[cl].slots| == s.lists[cl].cacheSize == s.lists[cl].maxCacheSize
  }

  /** How a thread comes to release its own chain. */
  ghost predicate WhyReleased(c: Config, s: State, t: nat, cl: nat, chain: seq<Obj>)
    requires t < |s.threads| && cl < |c.batch|
  {
    var pc := s.threads[t];
    || (pc == InsertWait(cl, chain) && (|chain| == c.batch[cl] ==> AtMaximum(s, cl)))
    || (pc.HomeWait? && pc.chain == chain && pc.cl == cl && ComesHomeTooLate(s, t))
    || pc == HomeWait(cl, chain, true, false)
    || pc == Evict(cl, chain, true)
  }

  lemma ChoiceReleases(c: Config, s: State, t: nat, a: Action, cl: nat, chain: seq<Obj>)
    requires SelfOk(s, t) && Enabled(c, s, t, a) && !a.Advance? && cl < |c.batch|
    requires Step(c, s, t, a).threads[t] == Release(cl, chain, Finish) && !ReleaseSide(s.threads[t])
    ensures WhyReleased(c, s, t, cl, chain)
  {
  }

  lemma InsertReleases(c: Config, s: State, t: nat, cl: nat, chain: seq<Obj>)
    requires SelfSizesOk(c, s, t) && Enabled(c, s, t, Advance) && InsertSide(s.threads[t]) && cl < |c.batch|
    requires Step(c, s, t, Advance).threads[t] == Release(cl, chain, Finish)
    ensures WhyReleased(c, s, t, cl, chain)
  {
  }

  lemma StepReleases(c: Config, s: State, t: nat, a: Action, cl: nat, chain: seq<Obj>)
    requires SelfSizesOk(c, s, t) && Enabled(c, s, t, a) && cl < |c.batch|
    requires Step(c, s, t, a).threads[t] == Release(cl, chain, Finish) && !ReleaseSide(s.threads[t])
    ensures WhyReleased(c, s, t, cl, chain)
  {
    if !a.Advance? {
      ChoiceReleases(c, s, t, a, cl, chain);
    } else {
      InsertReleases(c, s, t, cl, chain);
    }
  }

  /** In every run, InsertRange releases a full batch to its spans only if the transfer cache was at its maximum
      when the lock was taken, if a credit came home too late, or after two attempts to find room in another class,
      the second one by force. */
  lemma BatchReleasedOnlyIf(c: Config, states: seq<State>, moves: seq<Move>, t: nat, i: nat, cl: nat, chain: seq<Obj>)
    requires IsRun(c, states, moves) && i < |moves| && moves[i].t == t && cl < |c.batch| && |chain| == c.batch[cl]
    requires t < |states[i].threads| && !ReleaseSide(states[i].threads[t])
    requires t < |states[i + 1].threads| && states[i + 1].threads[t] == Release(cl, chain, Finish)
    ensures || (states[i].threads[t] == InsertWait(cl, chain) && AtMaximum(states[i], cl))
            || (&& states[i].threads[t] in {HomeWait(cl, chain, false, true), HomeWait(cl, chain, true, true)}
                && cl < |states[i].lists| && states[i].lists[cl].cacheSize == states[i].lists[cl].maxCacheSize)
            || Forced(states, t, i, cl, chain)
  {
    RunKeepsInv(c, states, moves, i);
    RunHasPast(c, states, moves, t, i);
    StepReleases(c, states[i], t, moves[i].a, cl, chain);
    assert ListSlotsOk(states[i].lists[cl], c.batch[cl]);
  }

  /** In every run, a chain is only evicted from the transfer cache of another class by force. */
  lemma EvictedOnlyByForce(c: Config, states: seq<State>, moves: seq<Move>, t: nat, i: nat)
    requires IsRun(c, states, moves) && i < |states| && t < |states[i].threads|
    requires ReleaseSide(states[i].threads[t]) && states[i].threads[t].then_.Resume?
    ensures var Resume(home, chain) := states[i].threads[t].then_; Forced(states, t, i, home, chain)
  {
    RunHasPast(c, states, moves, t, i);
  }

  // ----- InsertRange comes to an end

  /** No batch is larger than m. */
  ghost predicate BatchesUpTo(c: Config, m: nat) {
    forall i :: 0 <= i < |c.batch| ==> c.batch[i] <= m
  }

  /** An upper bound of the steps that are left of an InsertRange, where m is the largest batch. */
  function StepsLeft(pc: PC, m: nat): nat {
    match pc
    case InsertWait(_, chain) => 3 * |chain| + 3 * m + 10
    case Evict(_, chain, force) => 3 * |chain| + 3 * m + if force then 6 else 9
    case VictimWait(_, chain, force, _) => 3 * |chain| + 3 * m + if force then 5 else 8
    case HomeWait(_, chain, force, won) => if won || force then 3 * |chain| + 2 else 3 * |chain| + 3 * m + 7
    case Release(_, list, k) => 3 * |list| + 1 + AfterRelease(k)
    case RelockWait(_, list, k) => 3 * |list| + 2 + AfterRelease(k)
    case Delete(_, list, k, _) => 3 * |list| + 3 + AfterRelease(k)
    case _ => 0
  }

  function AfterRelease(k: Then): nat { if k.Finish? then 0 else 3 * |k.chain| + 2 }

  predicate Inserts(pc: PC) { InsertSide(pc) || pc.Evict? || ReleaseSide(pc) }

  ghost predicate Closer(pc: PC, pc': PC, m: nat) {
    (pc'.Idle? || Inserts(pc')) && StepsLeft(pc', m) < StepsLeft(pc, m)
  }

  lemma ChoiceCloser(c: Config, s: State, t: nat, a: Action, m: nat)
    requires SelfOk(s, t) && Enabled(c, s, t, a) && !a.Advance? && Inserts(s.threads[t])
    ensures Closer(s.threads[t], Step(c, s, t, a).threads[t], m)
  {
  }

  lemma InsertCloser(c: Config, s: State, t: nat, m: nat)
    requires SelfSizesOk(c, s, t) && Enabled(c, s, t, Advance) && InsertSide(s.threads[t])
    requires c.batch[Touched(s.threads[t])] <= m
    ensures Closer(s.threads[t], Step(c, s, t, Advance).threads[t], m)
  {
  }

  lemma ReleaseCloser(c: Config, s: State, t: nat, m: nat)
    requires SelfOk(s, t) && Enabled(c, s, t, Advance) && ReleaseSide(s.threads[t])
    ensures Closer(s.threads[t], Step(c, s, t, Advance).threads[t], m)
  {
  }

  lemma SelfFromInv(c: Config, s: State, t: nat)
    requires Inv(c, s) && t < |s.threads|
    ensures SelfSizesOk(c, s, t)
  {
    assert RefersTo(s.threads[t], |s.lists|) && ChainOk(c, s.threads[t]);
    if !s.threads[t].Idle? {
      assert ListSlotsOk(s.lists[Touched(s.threads[t])], c.batch[Touched(s.threads[t])]);
    }
  }

  /** Every step of an InsertRange brings its end closer, whatever the other threads do. */
  lemma InsertEnds(c: Config, s: State, t: nat, a: Action, m: nat)
    requires SelfSizesOk(c, s, t) && Enabled(c, s, t, a) && Inserts(s.threads[t]) && BatchesUpTo(c, m)
    ensures Closer(s.threads[t], Step(c, s, t, a).threads[t], m)
  {
    if !a.Advance? {
      ChoiceCloser(c, s, t, a, m);
    } else if InsertSide(s.threads[t]) {
      InsertCloser(c, s, t, m);
    } else {
      ReleaseCloser(c, s, t, m);
    }
  }

  /** How many of the moves from j up to i are made by thread t. */
  function OwnMoves(moves: seq<Move>, t: nat, j: nat, i: nat): nat
    requires j <= i <= |moves|
  {
    if i == j then 0 else OwnMoves(moves, t, j, i - 1) + if moves[i - 1].t == t then 1 else 0
  }

  lemma StepsFewer(c: Config, states: seq<State>, moves: seq<Move>, t: nat, i: nat, m: nat)
    requires IsRun(c, states, moves) && i < |moves| && BatchesUpTo(c, m)
    ensures Fewer(states, moves, t, i, m)
  {
    RunKeepsInv(c, states, moves, i);
    StepMoves(c, states[i], moves[i].t, moves[i].a);
    if moves[i].t == t && Inserts(states[i].threads[t]) {
      SelfFromInv(c, states[i], t);
      InsertEnds(c, states[i], t, moves[i].a, m);
    }
  }

  /** By how much the steps made and the steps left fall short of what was left at the start; -1 outside an
      InsertRange. */
  ghost function Slack(states: seq<State>, moves: seq<Move>, t: nat, j: nat, i: nat, m: nat): int
    requires j <= i <= |moves| && i < |states|
  {
    if t < |states[j].threads| && t < |states[i].threads| && Inserts(states[i].threads[t])
    then StepsLeft(states[j].threads[t], m) - OwnMoves(moves, t, j, i) - StepsLeft(states[i].threads[t], m)
    else -1
  }

  lemma OneMoreMove(moves: seq<Move>, t: nat, j: nat, i: nat)
    requires j <= i < |moves|
    ensures OwnMoves(moves, t, j, i + 1) == OwnMoves(moves, t, j, i) + if moves[i].t == t then 1 else 0
  {
  }

  /** A move of the thread brings the end of its InsertRange closer, and that of another thread does not matter. */
  ghost predicate Fewer(states: seq<State>, moves: seq<Move>, t: nat, i: nat, m: nat)
    requires i < |moves| && i + 1 < |states|
  {
    t < |states[i].threads| && Inserts(states[i].threads[t]) ==>
      && t < |states[i + 1].threads|
      && var pc, pc' := states[i].threads[t], states[i + 1].threads[t];
      && (pc'.Idle? || Inserts(pc'))
      && StepsLeft(pc', m) + (if moves[i].t == t then 1 else 0) <= StepsLeft(pc, m)
  }

  lemma {:induction false} StaysWithin(states: seq<State>, moves: seq<Move>, t: nat, j: nat, i: nat, m: nat)
    requires |states| == |moves| + 1 && forall k :: 0 <= k < |moves| ==> Fewer(states, moves, t, k, m)
    requires SameCall(states, t, j, i) && i <= |moves| && states[j].threads[t].InsertWait?
    ensures Slack(states, moves, t, j, i, m) >= 0
  {
    if i == j {
    } else {
      StaysWithin(states, moves, t, j, i - 1, m);
      assert Fewer(states, moves, t, i - 1, m);
      OneMoreMove(moves, t, j, i - 1);
    }
  }

  /** In every run, an InsertRange of a chain takes a bounded number of steps of its own. */
  lemma InsertIsBounded(c: Config, states: seq<State>, moves: seq<Move>, t: nat, j: nat, i: nat, m: nat)
    requires IsRun(c, states, moves) && SameCall(states, t, j, i) && i <= |moves| && states[j].threads[t].InsertWait?
    requires BatchesUpTo(c, m)
    ensures OwnMoves(moves, t, j, i) <= 3 * |states[j].threads[t].chain| + 3 * m + 10
  {
    forall k | 0 <= k < |moves|
      ensures Fewer(states, moves, t, k, m)
    {
      StepsFewer(c, states, moves, t, k, m);
    }
    StaysWithin(states, moves, t, j, i, m);
  }

  // ----- room by force

  /** Class b has all its slots in use and class a could use one more. */
  ghost predicate Crowded(s: State, a: nat, b: nat) {
    && a < |s.lists| && b < |s.lists| && a != b && s.lists[a].lock == s.lists[b].lock == None
    && |s.lists[a].slots| == s.lists[a].cacheSize < s.lists[a].maxCacheSize
    && |s.lists[b].slots| == s.lists[b].cacheSize >= 1
  }

  /** Between s and s' nothing happened to the transfer caches, and only thread t moved. */
  ghost predicate SameCaches(s: State, s': State, t: nat) {
    && |s'.threads| == |s.threads| && |s'.caches| == |s.caches| && |s'.lists| == |s.lists|
    && (forall u :: 0 <= u < |s.threads| && u != t ==> s'.threads[u] == s.threads[u])
    && forall cl :: 0 <= cl < |s.lists| ==>
         && s'.lists[cl].slots == s.lists[cl].slots && s'.lists[cl].cacheSize == s.lists[cl].cacheSize
         && s'.lists[cl].maxCacheSize == s.lists[cl].maxCacheSize
  }

  /** The first attempt fails: a full cache is not touched without force. */
  lemma FirstAttempt(c: Config, s: State, t: nat, a: nat, b: nat)
    returns (locked: State, open: State, back: State, s': State)
    requires Inserting(c, s, t, a) && Crowded(s, a, b)
    ensures Hop(c, s, t, Advance, locked) && Hop(c, locked, t, StealFrom(b), open)
    ensures Hop(c, open, t, Advance, back) && Hop(c, back, t, Advance, s')
    ensures |locked.threads| == |open.threads| == |back.threads| == |s.threads|
    ensures !locked.threads[t].HomeWait? && !open.threads[t].HomeWait?
    ensures back.threads[t] == HomeWait(a, s.threads[t].chain, false, false)
    ensures SameCaches(s, s', t) && Shaped(c, s') && s'.threads[t] == Evict(a, s.threads[t].chain, true)
    ensures s'.lists[a].lock == Some(t) && s'.lists[b].lock == None
  {
    locked := Step(c, s, t, Advance);
    open := Step(c, locked, t, StealFrom(b));
    back := Step(c, open, t, Advance);
    s' := Step(c, back, t, Advance);
  }

  /** The second one takes the top chain of the full cache, and the slot with it. */
  lemma SecondAttempt(c: Config, s: State, t: nat, a: nat, b: nat) returns (open: State, s': State)
    requires Shaped(c, s) && t < |s.threads| && s.threads[t].Evict? && s.threads[t].cl == a && s.threads[t].force
    requires a < |s.lists| && b < |s.lists| && a != b && s.lists[b].lock == None
    requires |s.lists[b].slots| == s.lists[b].cacheSize >= 1
    ensures Hop(c, s, t, StealFrom(b), open) && Hop(c, open, t, Advance, s')
    ensures |open.threads| == |s.threads| && !open.threads[t].HomeWait? && Shaped(c, s')
    ensures var top := |s.lists[b].slots| - 1;
            && s'.threads == s.threads[t := Release(b, s.lists[b].slots[top], Resume(a, s.threads[t].chain))]
            && s'.lists == s.lists[a := s.lists[a].(lock := None)]
                                  [b := s.lists[b].(cacheSize := top, slots := s.lists[b].slots[..top],
                                                    lock := Some(t))]
  {
    open := Step(c, s, t, StealFrom(b));
    s' := Step(c, open, t, Advance);
  }

  /** The state after the first object of the evicted chain has gone back to its span. */
  ghost predicate OneBack(c: Config, s: State, s': State, t: nat) {
    && t < |s.threads| && s.threads[t].Release? && s.threads[t].chain != [] && s.threads[t].cl < |s.lists|
    && Shaped(c, s') && SameCaches(s, s', t)
    && s'.threads[t] == Release(s.threads[t].cl, s.threads[t].chain[1..], s.threads[t].then_)
    && forall cl :: 0 <= cl < |s.lists| && cl != s.threads[t].cl ==> s'.lists[cl] == s.lists[cl]
  }

  /** The last object of a span to come back: the page heap takes the span, and then the lock has to be taken again. */
  ghost predicate LastBack(c: Config, s: State, s': State, t: nat) {
    && t < |s.threads| && s.threads[t].Release? && s.threads[t].chain != [] && s.threads[t].cl < |s.lists|
    && Shaped(c, s') && SameCaches(s, s', t)
    && s'.threads[t].Delete? && s'.threads[t].cl == s.threads[t].cl && s'.threads[t].chain == s.threads[t].chain[1..]
    && s'.threads[t].then_ == s.threads[t].then_ && s'.lists[s.threads[t].cl].lock == None
    && forall cl :: 0 <= cl < |s.lists| && cl != s.threads[t].cl ==> s'.lists[cl] == s.lists[cl]
  }

  lemma ReleaseHop(c: Config, s: State, t: nat) returns (s': State)
    requires Inv(c, s) && t < |s.threads| && s.threads[t].Release? && s.threads[t].chain != []
    ensures Hop(c, s, t, Advance, s') && (OneBack(c, s, s', t) || LastBack(c, s, s', t))
  {
    ComingBack(c, s, t);
    s' := Step(c, s, t, Advance);
  }

  lemma RelockHops(c: Config, s: State, s1: State, t: nat) returns (s2: State, s': State)
    requires Shaped(c, s) && LastBack(c, s, s1, t)
    ensures Hop(c, s1, t, Advance, s2) && Hop(c, s2, t, Advance, s') && |s2.threads| == |s.threads|
    ensures !s2.threads[t].HomeWait? && OneBack(c, s, s', t)
  {
    s2 := Step(c, s1, t, Advance);
    s' := Step(c, s2, t, Advance);
  }

  /** One object of the evicted chain goes back to its span. */
  lemma ReleaseFirst(c: Config, s0: State, s: State, t: nat) returns (s': State)
    requires Reached(c, s0, s, 0) && Shaped(c, s) && t < |s.threads|
    requires s.threads[t].Release? && s.threads[t].chain != []
    ensures Reached(c, s0, s', 0) && OneBack(c, s, s', t)
  {
    ReachedInv(c, s0, s, 0);
    s' := ReleaseHop(c, s, t);
    Go(c, s0, s, 0, t, Advance, s');
    if LastBack(c, s, s', t) {
      var s1, s2 := s', s';
      s2, s' := RelockHops(c, s, s1, t);
      Go(c, s0, s1, 0, t, Advance, s2);
      Go(c, s0, s2, 0, t, Advance, s');
    }
  }

  /** Class b has given up a slot and thread t comes home to class a with it. */
  ghost predicate Won(c: Config, s: State, s': State, t: nat, b: nat, home: nat, chain: seq<Obj>) {
    && Shaped(c, s') && SameCaches(s, s', t) && t < |s'.threads| && s'.threads[t] == HomeWait(home, chain, true, true)
    && b < |s.lists| && s'.lists[b].lock == None
    && forall cl :: 0 <= cl < |s.lists| && cl != b ==> s'.lists[cl] == s.lists[cl]
  }

  /** All of the evicted chain goes back to its spans. */
  lemma {:induction false} ReleaseAll(c: Config, s0: State, s: State, t: nat, b: nat, home: nat, chain: seq<Obj>)
    returns (s': State)
    requires Reached(c, s0, s, 0) && Shaped(c, s) && t < |s.threads| && b < |s.lists|
    requires s.threads[t].Release? && s.threads[t].cl == b && s.threads[t].then_ == Resume(home, chain)
    ensures Reached(c, s0, s', 0) && Won(c, s, s', t, b, home, chain)
    decreases |s.threads[t].chain|
  {
    if s.threads[t].chain == [] {
      s' := Step(c, s, t, Advance);
      Go(c, s0, s, 0, t, Advance, s');
    } else {
      var s1 := ReleaseFirst(c, s0, s, t);
      s' := ReleaseAll(c, s0, s1, t, b, home, chain);
      assert SameCaches(s, s', t);
    }
  }

  /** The end: the chain is in a new slot of class a. */
  lemma PutHop(c: Config, s: State, t: nat, a: nat) returns (s': State)
    requires Returning(c, s, t, a) && a < |s.lists| && s.lists[a].lock == None
    requires s.lists[a].cacheSize < s.lists[a].maxCacheSize
    ensures Hop(c, s, t, Advance, s') && !ComesHomeTooLate(s, t)
    ensures s'.threads == s.threads[t := Idle]
    ensures var l := s.lists[a];
            s'.lists == s.lists[a := l.(cacheSize := l.cacheSize + 1, slots := l.slots + [s.threads[t].chain])]
  {
    s' := Step(c, s, t, Advance);
  }

  /** The two attempts, one after the other. */
  lemma Attempts(c: Config, s0: State, s: State, t: nat, a: nat, b: nat) returns (s': State)
    requires Reached(c, s0, s, 0) && Inserting(c, s, t, a) && Crowded(s, a, b)
    ensures Reached(c, s0, s', 0) && Shaped(c, s') && |s'.lists| == |s.lists| && |s'.threads| == |s.threads|
    ensures var top := |s.lists[b].slots| - 1;
            && s'.threads[t] == Release(b, s.lists[b].slots[top], Resume(a, s.threads[t].chain))
            && s'.lists[b].slots == s.lists[b].slots[..top] && s'.lists[b].cacheSize == top
            && s'.lists[a].slots == s.lists[a].slots && s'.lists[a].cacheSize == s.lists[a].cacheSize
            && s'.lists[a].maxCacheSize == s.lists[a].maxCacheSize && s'.lists[a].lock == None
  {
    var locked, open, back, insist := FirstAttempt(c, s, t, a, b);
    Go(c, s0, s, 0, t, Advance, locked);
    Go(c, s0, locked, 0, t, StealFrom(b), open);
    Go(c, s0, open, 0, t, Advance, back);
    Go(c, s0, back, 0, t, Advance, insist);
    var away;
    away, s' := SecondAttempt(c, insist, t, a, b);
    Go(c, s0, insist, 0, t, StealFrom(b), away);
    Go(c, s0, away, 0, t, Advance, s');
  }

  /** From every state of every run in which a batch is about to be inserted in a class whose slots are all in use,
      and all slots of another class are in use too, there is a run in which that class loses its top slot, by
      force, and the batch becomes a slot of its own class. */
  lemma RoomByForce(c: Config, s0: State, s: State, t: nat, a: nat, b: nat) returns (s': State)
    requires Reached(c, s0, s, 0) && Inserting(c, s, t, a) && Crowded(s, a, b)
    ensures Reached(c, s0, s', 0) && |s'.lists| == |s.lists| && t < |s'.threads| && s'.threads[t].Idle?
    ensures s'.lists[a].slots == s.lists[a].slots + [s.threads[t].chain]
    ensures s'.lists[a].cacheSize == s.lists[a].cacheSize + 1
    ensures var top := |s.lists[b].slots| - 1;
            s'.lists[b].slots == s.lists[b].slots[..top] && s'.lists[b].cacheSize == top
  {
    var chain := s.threads[t].chain;
    var taken := Attempts(c, s0, s, t, a, b);
    var home := ReleaseAll(c, s0, taken, t, b, a, chain);
    s' := PutHop(c, home, t, a);
    Go(c, s0, home, 0, t, Advance, s');
  }
}
