/** When RemoveRange comes back with fewer objects than it was asked for. */
module CentralShortage {
  import opened Common
  import opened Central
  import opened CentralLocks
  import opened CentralObjects
  import opened CentralCounts
  import opened CentralRuns

  // ----- a lock keeps the others out

  lemma OutsideLeavesList(c: Config, s: State, u: nat, a: Action)
    requires Enabled(c, s, u, a) && !a.Advance? && !s.threads[u].Evict?
    ensures Step(c, s, u, a).lists == s.lists
  {
  }

  /** A step of a thread that does not hold the lock of the one list it may change needs that lock to be free, or
      changes nothing. */
  lemma LockedOut(c: Config, s: State, u: nat, a: Action)
    requires Enabled(c, s, u, a) && ClassesOk(s) && LocksOk(s)
    requires !s.threads[u].Idle? && Holds(s.threads[u]).None? && s.lists[Touched(s.threads[u])].lock.Some?
    ensures Step(c, s, u, a).lists == s.lists
  {
    assert RefersTo(s.threads[u], |s.lists|);
    if !a.Advance? {
      OutsideLeavesList(c, s, u, a);
    }
  }

  /** While a thread holds the lock of a class, no other thread changes the list. */
  lemma ListIsSafe(c: Config, s: State, t: nat, u: nat, a: Action)
    requires Enabled(c, s, u, a) && ClassesOk(s) && LocksOk(s) && t < |s.threads| && u != t && Holds(s.threads[t]).Some?
    ensures var cl, s' := Holds(s.threads[t]).value, Step(c, s, u, a);
            && cl < |s.lists| == |s'.lists| && s'.lists[cl] == s.lists[cl]
            && t < |s'.threads| && s'.threads[t] == s.threads[t]
  {
    var cl := Holds(s.threads[t]).value;
    StepMoves(c, s, u, a);
    assert s.lists[cl].lock == Some(t);
    if !s.threads[u].Idle? && Touched(s.threads[u]) == cl {
      assert Holds(s.threads[u]) != Some(cl);
      LockedOut(c, s, u, a);
    }
  }

  // ----- the way to a short chain

  /** Since move j, at which the page heap delivered nothing to thread t, the thread has been in the same call. */
  ghost predicate RefusedAt(states: seq<State>, moves: seq<Move>, t: nat, i: nat, j: nat)
    requires |states| == |moves| + 1 && i <= |moves|
  {
    && j < i && moves[j] == Move(t, NoMemory)
    && forall k :: j < k <= i ==> t < |states[k].threads| && !states[k].threads[t].Idle?
  }

  ghost predicate Refused(states: seq<State>, moves: seq<Move>, t: nat, i: nat)
    requires |states| == |moves| + 1 && i <= |moves|
  {
    exists j :: RefusedAt(states, moves, t, i, j)
  }

  lemma StillRefused(states: seq<State>, moves: seq<Move>, t: nat, i: nat)
    requires |states| == |moves| + 1 && i < |moves| && Refused(states, moves, t, i)
    requires t < |states[i + 1].threads| && !states[i + 1].threads[t].Idle?
    ensures Refused(states, moves, t, i + 1)
  {
    var j :| RefusedAt(states, moves, t, i, j);
    assert RefusedAt(states, moves, t, i + 1, j);
  }

  /** The thread came back from Populate empty-handed, or is about to. */
  predicate EmptyHanded(s: State, t: nat) {
    && t < |s.threads|
    && match s.threads[t]
       case PopulateWait(_, _, _, made) => made.None?
       case Fetch(cl, _, _, again) => again && cl < |s.lists| && s.lists[cl].nonempty == []
       case _ => false
  }

  /** How a thread gets there: by the page heap's refusal, or by keeping on after one. */
  lemma EmptyHandedBefore(c: Config, s: State, u: nat, a: Action, t: nat)
    requires Inv(c, s) && Enabled(c, s, u, a) && EmptyHanded(Step(c, s, u, a), t)
    ensures (u == t && a == NoMemory) || EmptyHanded(s, t)
  {
    StepMoves(c, s, u, a);
    if u != t {
      if Holds(s.threads[t]).Some? {
        ListIsSafe(c, s, t, u, a);
      }
    } else {
      OwnStep(c, s, t, a);
    }
  }

  lemma OwnStep(c: Config, s: State, t: nat, a: Action)
    requires Inv(c, s) && Enabled(c, s, t, a) && EmptyHanded(Step(c, s, t, a), t)
    ensures a == NoMemory || EmptyHanded(s, t)
  {
    assert RefersTo(s.threads[t], |s.lists|);
    if a.Advance? {
      if InsertSide(s.threads[t]) || ReleaseSide(s.threads[t]) {
        OtherSides(c, s, t);
      } else {
        OwnAdvance(c, s, t);
      }
    }
  }

  /** Inserting does not lead there. */
  lemma OtherSides(c: Config, s: State, t: nat)
    requires Enabled(c, s, t, Advance) && (InsertSide(s.threads[t]) || ReleaseSide(s.threads[t]))
    ensures !EmptyHanded(Step(c, s, t, Advance), t)
  {
  }

  lemma OwnAdvance(c: Config, s: State, t: nat)
    requires SelfOk(s, t) && Enabled(c, s, t, Advance) && EmptyHanded(Step(c, s, t, Advance), t)
    requires !InsertSide(s.threads[t]) && !ReleaseSide(s.threads[t])
    ensures EmptyHanded(s, t)
  {
  }

  lemma NotAtStart(c: Config, s: State, t: nat)
    requires Initial(c, s)
    ensures !EmptyHanded(s, t)
  {
  }

  lemma WhyEmptyHanded(c: Config, states: seq<State>, moves: seq<Move>, t: nat, i: nat)
    requires IsRun(c, states, moves) && i < |moves| && EmptyHanded(states[i + 1], t)
    ensures moves[i] == Move(t, NoMemory) || EmptyHanded(states[i], t)
    ensures t < |states[i].threads|
  {
    RunKeepsInv(c, states, moves, i);
    EmptyHandedBefore(c, states[i], moves[i].t, moves[i].a, t);
  }

  lemma {:induction false} EmptyHandedMeansRefused(c: Config, states: seq<State>, moves: seq<Move>, t: nat, i: nat)
    requires IsRun(c, states, moves) && i <= |moves| && EmptyHanded(states[i], t)
    ensures Refused(states, moves, t, i)
  {
    if i == 0 {
      NotAtStart(c, states[0], t);
    } else {
      WhyEmptyHanded(c, states, moves, t, i - 1);
      if moves[i - 1] == Move(t, NoMemory) {
        assert RefusedAt(states, moves, t, i, i - 1);
      } else {
        EmptyHandedMeansRefused(c, states, moves, t, i - 1);
        StillRefused(states, moves, t, i - 1);
      }
    }
  }

  /** In every run, a RemoveRange that delivers fewer objects than it was asked for was told by the page heap,
      within the same call, that there is no memory. */
  lemma ShortOnlyWithoutMemory(c: Config, states: seq<State>, moves: seq<Move>, t: nat, i: nat)
    requires IsRun(c, states, moves) && i < |moves| && moves[i] == Move(t, Advance)
    requires states[i].threads[t].RemoveWait? || states[i].threads[t].Fetch?
    requires states[i + 1].threads[t].Idle?
    ensures var s := states[i];
            && s.threads[t].cl < |s.lists| && (s.threads[t].RemoveWait? ==> s.lists[s.threads[t].cl].slots != [])
            && (|Delivered(s, t)| < s.threads[t].n ==> Refused(states, moves, t, i))
  {
    RunKeepsInv(c, states, moves, i);
    assert RefersTo(states[i].threads[t], |states[i].lists|);
    RemoveReturns(c, states[i], t);
    if |Delivered(states[i], t)| < states[i].threads[t].n {
      EmptyHandedMeansRefused(c, states, moves, t, i);
    }
  }
}
