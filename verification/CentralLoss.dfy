/** Runs in which the transfer caches lose room. Class a is filled up to one unit below its maximum; then two
    threads each take a unit from class b for it. The second comes home too late, and its unit is gone. */
module CentralLoss {
  import opened Common
  import opened Central
  import opened CentralLocks
  import opened CentralObjects
  import opened CentralCounts
  import opened CentralRuns

  // ----- runs, step by step

  ghost predicate RunTo(c: Config, s0: State, s: State, states: seq<State>, moves: seq<Move>) {
    IsRun(c, states, moves) && states[0] == s0 && states[|moves|] == s
  }

  /** Some run from s0 ends in s, and so many units of room were lost on the way. */
  ghost predicate Reached(c: Config, s0: State, s: State, lost: int) {
    Budget(s) == TotalSize(s0.lists) - lost && exists states, moves :: RunTo(c, s0, s, states, moves)
  }

  lemma Begin(c: Config, s0: State)
    requires Initial(c, s0)
    ensures Reached(c, s0, s0, 0)
  {
    NoCredits(s0.threads);
    assert RunTo(c, s0, s0, [s0], []);
  }

  lemma ReachedInv(c: Config, s0: State, s: State, lost: int)
    requires Reached(c, s0, s, lost)
    ensures Inv(c, s)
  {
    var states, moves :| RunTo(c, s0, s, states, moves);
    RunKeepsInv(c, states, moves, |moves|);
  }

  lemma Extend(c: Config, s0: State, s: State, states: seq<State>, moves: seq<Move>, t: nat, a: Action)
    requires RunTo(c, s0, s, states, moves) && Enabled(c, s, t, a)
    ensures RunTo(c, s0, Step(c, s, t, a), states + [Step(c, s, t, a)], moves + [Move(t, a)])
  {
  }

  lemma Cost(c: Config, s0: State, s: State, lost: int, t: nat, a: Action)
    requires Reached(c, s0, s, lost) && Enabled(c, s, t, a)
    ensures Budget(Step(c, s, t, a)) == Budget(s) - if ComesHomeTooLate(s, t) then 1 else 0
  {
    ReachedInv(c, s0, s, lost);
    StepKeepsBudget(c, s, t, a);
  }

  /** The parts of a state fit together. */
  ghost predicate Shaped(c: Config, s: State) {
    |c.batch| == |c.capacity| == |s.lists| && |s.caches| == |s.threads|
  }

  ghost predicate Hop(c: Config, s: State, t: nat, a: Action, s': State) {
    Enabled(c, s, t, a) && s' == Step(c, s, t, a)
  }

  lemma Go(c: Config, s0: State, s: State, lost: int, t: nat, a: Action, s': State)
    requires Reached(c, s0, s, lost) && Hop(c, s, t, a, s')
    ensures Reached(c, s0, s', lost + if ComesHomeTooLate(s, t) then 1 else 0)
  {
    Cost(c, s0, s, lost, t, a);
    var states, moves :| RunTo(c, s0, s, states, moves);
    Extend(c, s0, s, states, moves, t, a);
  }

  /** Between s and s' only thread t was active, and no span was given up. */
  ghost predicate Beside(s: State, s': State, t: nat) {
    && |s'.threads| == |s.threads| && |s'.caches| == |s.caches| && |s'.lists| == |s.lists|
    && (forall u :: 0 <= u < |s.threads| && u != t ==> s'.threads[u] == s.threads[u])
    && (forall u :: 0 <= u < |s.caches| && u != t ==> s'.caches[u] == s.caches[u])
    && (forall id :: id in s.spans ==> id in s'.spans && s'.spans[id].cl == s.spans[id].cl)
  }

  /** The transfer caches are as they were, and so is all of every class but a. */
  ghost predicate SameRoom(s: State, s': State, a: nat) {
    && a < |s.lists| == |s'.lists|
    && (forall cl :: 0 <= cl < |s.lists| && cl != a ==> s'.lists[cl] == s.lists[cl])
    && s'.lists[a].slots == s.lists[a].slots && s'.lists[a].cacheSize == s.lists[a].cacheSize
    && s'.lists[a].maxCacheSize == s.lists[a].maxCacheSize
  }

  /** The thread cache has these objects of the class. */
  ghost predicate Held(s: State, t: nat, a: nat, chain: seq<Obj>) {
    && t < |s.caches| && Distinct(chain)
    && forall o :: o in chain ==> o in s.caches[t] && o.span in s.spans && s.spans[o.span].cl == a
  }

  lemma StillHeld(s: State, s': State, t: nat, u: nat, a: nat, chain: seq<Obj>)
    requires Held(s, u, a, chain) && Beside(s, s', t) && u != t
    ensures Held(s', u, a, chain)
  {
  }

  // ----- RemoveRange

  lemma AnElement<T>(xs: set<T>) returns (x: T)
    requires xs != {}
    ensures x in xs
  {
    x :| x in xs;
  }

  lemma {:induction false} Bound(keys: set<int>) returns (id: int)
    ensures forall k :: k in keys ==> k < id
  {
    if keys == {} {
      id := 0;
    } else {
      var k := AnElement(keys);
      id := Bound(keys - {k});
      id := if id <= k then k + 1 else id;
      assert forall x :: x in keys ==> x == k || x in keys - {k};
    }
  }

  /** There is no span with free objects, and the page heap delivers one. */
  lemma PopulateHops(c: Config, s: State, t: nat, id: int) returns (out: State, made: State, s': State)
    requires Shaped(c, s) && t < |s.threads| && s.threads[t].Fetch? && s.threads[t].cl < |s.lists|
    requires !s.threads[t].again && s.lists[s.threads[t].cl].nonempty == [] && id !in s.spans && id !in s.doomed
    ensures Hop(c, s, t, Advance, out) && Hop(c, out, t, NewSpan(id), made) && Hop(c, made, t, Advance, s')
    ensures !out.threads[t].HomeWait? && !made.threads[t].HomeWait? && |out.threads| == |made.threads| == |s.threads|
    ensures Beside(s, s', t) && SameRoom(s, s', s.threads[t].cl) && Shaped(c, s')
    ensures s'.threads[t] == s.threads[t].(again := true) && s'.lists[s.threads[t].cl].nonempty != []
  {
    out := Step(c, s, t, Advance);
    made := Step(c, out, t, NewSpan(id));
    s' := Step(c, made, t, Advance);
  }

  lemma Populate(c: Config, s0: State, s: State, t: nat) returns (s': State)
    requires Reached(c, s0, s, 0) && Shaped(c, s)
    requires t < |s.threads| && s.threads[t].Fetch? && s.threads[t].cl < |s.lists|
    requires !s.threads[t].again && s.lists[s.threads[t].cl].nonempty == []
    ensures Reached(c, s0, s', 0) && Beside(s, s', t) && SameRoom(s, s', s.threads[t].cl) && Shaped(c, s')
    ensures s'.threads[t] == s.threads[t].(again := true) && s'.lists[s.threads[t].cl].nonempty != []
  {
    var id := Bound(s.spans.Keys + s.doomed);
    var out, made;
    out, made, s' := PopulateHops(c, s, t, id);
    Go(c, s0, s, 0, t, Advance, out);
    Go(c, s0, out, 0, t, NewSpan(id), made);
    Go(c, s0, made, 0, t, Advance, s');
  }

  /** One round of the loop takes at least one object from a span. */
  lemma FetchSome(c: Config, s: State, t: nat) returns (s': State)
    requires Inv(c, s) && t < |s.threads| && s.threads[t].Fetch? && s.lists[s.threads[t].cl].nonempty != []
    ensures Hop(c, s, t, Advance, s') && Beside(s, s', t) && SameRoom(s, s', s.threads[t].cl) && Shaped(c, s')
    ensures s'.threads[t].Fetch? ==>
              && s'.threads[t] == s.threads[t].(chain := s'.threads[t].chain, again := false)
              && |s.threads[t].chain| < |s'.threads[t].chain| < s.threads[t].n
    ensures !s'.threads[t].Fetch? ==> s'.threads[t].Idle? && s'.lists[s.threads[t].cl].lock == None
  {
    var a := s.threads[t].cl;
    assert ListOk(s.spans, s.lists[a], a) && s.lists[a].nonempty[0] in s.lists[a].nonempty;
    assert ChainOk(c, s.threads[t]);
    s' := Step(c, s, t, Advance);
  }

  lemma Received(c: Config, s: State, s': State, t: nat) returns (got: seq<Obj>)
    requires Inv(c, s) && t < |s.threads| && s.threads[t].Fetch? && s.lists[s.threads[t].cl].nonempty != []
    requires Hop(c, s, t, Advance, s') && Beside(s, s', t) && s'.threads[t].Idle?
    ensures |got| == s.threads[t].n && Held(s', t, s.threads[t].cl, got)
  {
    RemoveReturns(c, s, t);
    got := Delivered(s, t);
  }

  lemma BesideTransitive(s: State, m: State, s': State, t: nat, a: nat)
    requires Beside(s, m, t) && Beside(m, s', t) && SameRoom(s, m, a) && SameRoom(m, s', a)
    ensures Beside(s, s', t) && SameRoom(s, s', a)
  {
  }

  /** The loop of RemoveRange gets all that was asked for, as long as the page heap delivers. */
  lemma {:induction false} FetchAll(c: Config, s0: State, s: State, t: nat, a: nat) returns (s': State, got: seq<Obj>)
    requires Reached(c, s0, s, 0) && Shaped(c, s) && a < |s.lists|
    requires t < |s.threads| && s.threads[t].Fetch? && s.threads[t].cl == a
    requires s.threads[t].again ==> s.lists[a].nonempty != []
    ensures Reached(c, s0, s', 0) && Beside(s, s', t) && SameRoom(s, s', a) && Shaped(c, s')
    ensures s'.threads[t].Idle? && s'.lists[a].lock == None
    ensures |got| == s.threads[t].n && Held(s', t, a, got)
    decreases s.threads[t].n - |s.threads[t].chain|, if s.lists[a].nonempty == [] then 1 else 0
  {
    var m;
    if s.lists[a].nonempty == [] {
      m := Populate(c, s0, s, t);
    } else {
      ReachedInv(c, s0, s, 0);
      m := FetchSome(c, s, t);
      Go(c, s0, s, 0, t, Advance, m);
      if m.threads[t].Idle? {
        got := Received(c, s, m, t);
        return m, got;
      }
    }
    s', got := FetchAll(c, s0, m, t, a);
    BesideTransitive(s, m, s', t, a);
  }

  /** An idle thread asks for n objects of a class whose transfer cache is empty. */
  lemma RemoveHops(c: Config, s: State, t: nat, a: nat, n: nat) returns (m: State, s': State)
    requires Shaped(c, s) && t < |s.threads| && s.threads[t].Idle? && Unlocked(s, a) && s.lists[a].slots == [] && n >= 1
    ensures Hop(c, s, t, StartRemove(a, n), m) && Hop(c, m, t, Advance, s')
    ensures |m.threads| == |s.threads| && !m.threads[t].HomeWait?
    ensures Beside(s, s', t) && SameRoom(s, s', a) && Shaped(c, s') && s'.threads[t] == Fetch(a, n, [], false)
  {
    m := Step(c, s, t, StartRemove(a, n));
    s' := Step(c, m, t, Advance);
  }

  lemma Remove(c: Config, s0: State, s: State, t: nat, a: nat, n: nat) returns (s': State, got: seq<Obj>)
    requires Reached(c, s0, s, 0) && Shaped(c, s) && t < |s.threads| && s.threads[t].Idle?
    requires Unlocked(s, a) && s.lists[a].slots == [] && n >= 1
    ensures Reached(c, s0, s', 0) && Beside(s, s', t) && SameRoom(s, s', a) && Shaped(c, s')
    ensures s'.threads[t].Idle? && s'.lists[a].lock == None && |got| == n && Held(s', t, a, got)
  {
    var m, f := RemoveHops(c, s, t, a, n);
    Go(c, s0, s, 0, t, StartRemove(a, n), m);
    Go(c, s0, m, 0, t, Advance, f);
    s', got := FetchAll(c, s0, f, t, a);
    BesideTransitive(s, f, s', t, a);
  }

  // ----- InsertRange

  /** The transfer caches of two classes: one has used slots out of size, and may grow to max; the other has room for
      so many chains and uses none of it. */
  datatype Room = Room(used: int, size: int, max: int, other: int)

  ghost predicate Caches(s: State, a: nat, b: nat, r: Room) {
    && a < |s.lists| && b < |s.lists| && a != b && s.lists[a].lock == s.lists[b].lock == None
    && |s.lists[a].slots| == r.used && s.lists[a].cacheSize == r.size && s.lists[a].maxCacheSize == r.max
    && s.lists[b].slots == [] && s.lists[b].cacheSize == r.other
  }

  /** Thread t is idle and has these objects. */
  ghost predicate Ready(c: Config, s: State, t: nat, a: nat, chain: seq<Obj>) {
    Shaped(c, s) && t < |s.threads| && s.threads[t].Idle? && a < |s.lists| && Held(s, t, a, chain)
  }

  /** Thread t is on its way with a chain of the batch size. */
  ghost predicate Inserting(c: Config, s: State, t: nat, a: nat) {
    && Shaped(c, s) && t < |s.threads| && s.threads[t].InsertWait? && s.threads[t].cl == a < |c.batch|
    && |s.threads[t].chain| == c.batch[a]
  }

  /** Thread t is on its way home with a unit of room. */
  ghost predicate Returning(c: Config, s: State, t: nat, a: nat) {
    Shaped(c, s) && t < |s.threads| && s.threads[t].HomeWait? && s.threads[t].cl == a && s.threads[t].won
  }

  ghost predicate SameObjects(s: State, s': State) {
    s'.caches == s.caches && s'.spans == s.spans
  }

  /** The thread passes on the first of its objects. */
  lemma PassOn(c: Config, s: State, t: nat, a: nat, chain: seq<Obj>, rest: seq<Obj>) returns (s': State)
    requires Ready(c, s, t, a, chain + rest) && |chain| == c.batch[a]
    ensures Hop(c, s, t, StartInsert(a, chain), s') && Beside(s, s', t) && s'.lists == s.lists
    ensures Inserting(c, s', t, a) && Held(s', t, a, rest)
  {
    var all := chain + rest;
    assert forall i :: 0 <= i < |chain| ==> all[i] == chain[i];
    assert forall i :: 0 <= i < |rest| ==> all[|chain| + i] == rest[i];
    assert forall o :: o in chain ==> o in all;
    assert forall o :: o in rest ==> o in all && o !in chain;
    s' := Step(c, s, t, StartInsert(a, chain));
  }

  /** A chain of the batch size goes to a free slot. */
  lemma StoreHop(c: Config, s: State, t: nat, a: nat, b: nat, r: Room) returns (s': State)
    requires Inserting(c, s, t, a) && Caches(s, a, b, r) && r.used < r.size
    ensures Hop(c, s, t, Advance, s') && Beside(s, s', t) && SameObjects(s, s') && Shaped(c, s')
    ensures s'.threads[t].Idle? && Caches(s', a, b, r.(used := r.used + 1))
  {
    s' := Step(c, s, t, Advance);
  }

  /** With all slots in use a unit of room is taken from class b. */
  lemma StealHops(c: Config, s: State, t: nat, a: nat, b: nat, r: Room) returns (locked: State, open: State, s': State)
    requires Inserting(c, s, t, a) && Caches(s, a, b, r) && r.used == r.size < r.max && r.other >= 1
    ensures Hop(c, s, t, Advance, locked) && Hop(c, locked, t, StealFrom(b), open) && Hop(c, open, t, Advance, s')
    ensures |locked.threads| == |open.threads| == |s.threads|
    ensures !locked.threads[t].HomeWait? && !open.threads[t].HomeWait?
    ensures Beside(s, s', t) && SameObjects(s, s') && Returning(c, s', t, a)
    ensures Caches(s', a, b, r.(other := r.other - 1))
  {
    locked := Step(c, s, t, Advance);
    open := Step(c, locked, t, StealFrom(b));
    s' := Step(c, open, t, Advance);
  }

  /** Home again, and there is still room to grow. */
  lemma HomeHop(c: Config, s: State, t: nat, a: nat, b: nat, r: Room) returns (s': State)
    requires Returning(c, s, t, a) && Caches(s, a, b, r) && r.used == r.size < r.max
    ensures Hop(c, s, t, Advance, s') && Beside(s, s', t) && SameObjects(s, s') && Shaped(c, s')
    ensures s'.threads[t].Idle? && Caches(s', a, b, r.(used := r.used + 1, size := r.size + 1))
    ensures !ComesHomeTooLate(s, t)
  {
    s' := Step(c, s, t, Advance);
  }

  /** Home again, and there is none. */
  lemma LateHop(c: Config, s: State, t: nat, a: nat, b: nat, r: Room) returns (s': State)
    requires Returning(c, s, t, a) && Caches(s, a, b, r) && r.size == r.max
    ensures Hop(c, s, t, Advance, s') && Beside(s, s', t) && ComesHomeTooLate(s, t) && Credit(s'.threads[t]) == 0
  {
    s' := Step(c, s, t, Advance);
  }

  lemma Store(c: Config, s0: State, s: State, t: nat, a: nat, b: nat, r: Room, chain: seq<Obj>, rest: seq<Obj>)
    returns (s': State)
    requires Reached(c, s0, s, 0) && Ready(c, s, t, a, chain + rest) && |chain| == c.batch[a]
    requires Caches(s, a, b, r) && r.used < r.size
    ensures Reached(c, s0, s', 0) && Beside(s, s', t) && Ready(c, s', t, a, rest)
    ensures Caches(s', a, b, r.(used := r.used + 1))
  {
    var m := PassOn(c, s, t, a, chain, rest);
    Go(c, s0, s, 0, t, StartInsert(a, chain), m);
    s' := StoreHop(c, m, t, a, b, r);
    Go(c, s0, m, 0, t, Advance, s');
  }

  lemma Steal(c: Config, s0: State, s: State, t: nat, a: nat, b: nat, r: Room, chain: seq<Obj>, rest: seq<Obj>)
    returns (s': State)
    requires Reached(c, s0, s, 0) && Ready(c, s, t, a, chain + rest) && |chain| == c.batch[a]
    requires Caches(s, a, b, r) && r.used == r.size < r.max && r.other >= 1
    ensures Reached(c, s0, s', 0) && Beside(s, s', t) && Returning(c, s', t, a) && Held(s', t, a, rest)
    ensures Caches(s', a, b, r.(other := r.other - 1))
  {
    var m := PassOn(c, s, t, a, chain, rest);
    Go(c, s0, s, 0, t, StartInsert(a, chain), m);
    var locked, open;
    locked, open, s' := StealHops(c, m, t, a, b, r);
    Go(c, s0, m, 0, t, Advance, locked);
    Go(c, s0, locked, 0, t, StealFrom(b), open);
    Go(c, s0, open, 0, t, Advance, s');
  }

  lemma Home(c: Config, s0: State, s: State, t: nat, a: nat, b: nat, r: Room, rest: seq<Obj>) returns (s': State)
    requires Reached(c, s0, s, 0) && Returning(c, s, t, a) && Held(s, t, a, rest)
    requires Caches(s, a, b, r) && r.used == r.size < r.max
    ensures Reached(c, s0, s', 0) && Beside(s, s', t) && Ready(c, s', t, a, rest)
    ensures Caches(s', a, b, r.(used := r.used + 1, size := r.size + 1))
  {
    s' := HomeHop(c, s, t, a, b, r);
    Go(c, s0, s, 0, t, Advance, s');
  }

  /** The first batch of what a thread has, and the others. */
  lemma Batches(chain: seq<Obj>, m: nat, k: nat)
    requires |chain| == m * k && k >= 1
    ensures m <= |chain| && chain[..m] + chain[m..] == chain && |chain[m..]| == m * (k - 1)
  {
    assert m * k == m * (k - 1) + m;
  }

  /** One more chain goes to a slot: a free one, or one for which class b gives up a unit of room. */
  lemma OneMore(c: Config, s0: State, s: State, t: nat, a: nat, b: nat, r: Room, chain: seq<Obj>, rest: seq<Obj>)
    returns (s': State, r': Room)
    requires Reached(c, s0, s, 0) && Ready(c, s, t, a, chain + rest) && |chain| == c.batch[a]
    requires Caches(s, a, b, r) && r.used <= r.size < r.max && r.other >= 1
    ensures Reached(c, s0, s', 0) && Beside(s, s', t) && Ready(c, s', t, a, rest) && Caches(s', a, b, r')
    ensures r'.used == r.used + 1 && r'.max == r.max
    ensures if r.used < r.size then r'.size == r.size && r'.other == r.other
            else r'.size == r.size + 1 && r'.other == r.other - 1
  {
    if r.used < r.size {
      s' := Store(c, s0, s, t, a, b, r, chain, rest);
      r' := r.(used := r.used + 1);
    } else {
      var away := Steal(c, s0, s, t, a, b, r, chain, rest);
      s' := Home(c, s0, away, t, a, b, r.(other := r.other - 1), rest);
      r' := r.(used := r.used + 1, size := r.size + 1, other := r.other - 1);
    }
  }

  /** One thread fills class a up to one unit short of its maximum, with as much room from class b as that takes. */
  lemma {:induction false} FillUp(c: Config, s0: State, s: State, t: nat, a: nat, b: nat, r: Room, chain: seq<Obj>)
    returns (s': State, r': Room, last: seq<Obj>)
    requires Reached(c, s0, s, 0) && Ready(c, s, t, a, chain) && Caches(s, a, b, r)
    requires r.used <= r.size < r.max && r.other > r.max - r.size && |chain| == c.batch[a] * (r.max - r.used)
    ensures Reached(c, s0, s', 0) && Beside(s, s', t) && Ready(c, s', t, a, last) && |last| == c.batch[a]
    ensures Caches(s', a, b, r') && r'.used == r'.size == r'.max - 1 && r'.other >= 2
    decreases r.max - r.used
  {
    if r.used == r.max - 1 {
      return s, r, chain;
    } else {
      var m := c.batch[a];
      Batches(chain, m, r.max - r.used);
      var mid, next := OneMore(c, s0, s, t, a, b, r, chain[..m], chain[m..]);
      s', r', last := FillUp(c, s0, mid, t, a, b, next, chain[m..]);
    }
  }

  // ----- the loss

  /** No thread but the first two is active. */
  ghost predicate OthersIdle(s: State) {
    |s.threads| >= 2 && forall t :: 2 <= t < |s.threads| ==> s.threads[t].Idle?
  }

  /** Thread 0 has the objects to fill class a, and thread 1 one batch more. */
  lemma GetObjects(c: Config, s0: State, a: nat, b: nat, r: Room) returns (s: State, mine: seq<Obj>, yours: seq<Obj>)
    requires Initial(c, s0) && |s0.threads| >= 2 && Caches(s0, a, b, r) && r.size < r.max && c.batch[a] >= 1
    ensures Reached(c, s0, s, 0) && Caches(s, a, b, r) && |s.threads| == |s0.threads|
    ensures Ready(c, s, 0, a, mine) && |mine| == c.batch[a] * r.max && Ready(c, s, 1, a, yours) && |yours| == c.batch[a]
    ensures OthersIdle(s)
  {
    Begin(c, s0);
    assert r.max >= 1 && c.batch[a] * r.max >= 1;
    var first;
    first, mine := Remove(c, s0, s0, 0, a, c.batch[a] * r.max);
    s, yours := Remove(c, s0, first, 1, a, c.batch[a]);
    StillHeld(first, s, 1, 0, a, mine);
  }

  /** Both threads take a unit for the last place. */
  lemma BothSteal(c: Config, s0: State, s: State, a: nat, b: nat, r: Room, mine: seq<Obj>, yours: seq<Obj>)
    returns (s': State)
    requires Reached(c, s0, s, 0) && OthersIdle(s)
    requires Ready(c, s, 0, a, mine) && |mine| == c.batch[a] && Ready(c, s, 1, a, yours) && |yours| == c.batch[a]
    requires Caches(s, a, b, r) && r.used == r.size == r.max - 1 && r.other >= 2
    ensures Reached(c, s0, s', 0) && OthersIdle(s') && Returning(c, s', 0, a) && Returning(c, s', 1, a)
    ensures Caches(s', a, b, r.(other := r.other - 2))
  {
    assert mine + [] == mine && yours + [] == yours;
    var away := Steal(c, s0, s, 0, a, b, r, mine, []);
    StillHeld(s, away, 0, 1, a, yours);
    s' := Steal(c, s0, away, 1, a, b, r.(other := r.other - 1), yours, []);
  }

  /** The first one home gets the place, and the second one is too late. */
  lemma TooLate(c: Config, s0: State, s: State, a: nat, b: nat, r: Room) returns (s': State)
    requires Reached(c, s0, s, 0) && OthersIdle(s) && Returning(c, s, 0, a) && Returning(c, s, 1, a)
    requires Caches(s, a, b, r) && r.used == r.size == r.max - 1
    ensures Reached(c, s0, s', 1) && forall t :: 0 <= t < |s'.threads| ==> Credit(s'.threads[t]) == 0
  {
    var full := Home(c, s0, s, 0, a, b, r, []);
    s' := LateHop(c, full, 1, a, b, r.(used := r.max, size := r.max));
    Go(c, s0, full, 0, 1, Advance, s');
  }

  lemma {:induction false} NoneOwed(threads: seq<PC>)
    requires forall t :: 0 <= t < |threads| ==> Credit(threads[t]) == 0
    ensures Credits(threads) == 0
  {
    if threads == [] {
    } else {
      NoneOwed(threads[..|threads| - 1]);
    }
  }

  /** Wherever a class may still grow and another has room for that and one more, two threads can lose a unit: a run
      ends with no thread owed any room and a total that is one less. */
  lemma RoomIsLost(c: Config, s0: State, a: nat, b: nat) returns (states: seq<State>, moves: seq<Move>)
    requires Initial(c, s0) && |s0.threads| >= 2 && a < |s0.lists| && b < |s0.lists| && a != b && c.batch[a] >= 1
    requires s0.lists[a].cacheSize < s0.lists[a].maxCacheSize
    requires s0.lists[b].cacheSize > s0.lists[a].maxCacheSize - s0.lists[a].cacheSize
    ensures IsRun(c, states, moves) && states[0] == s0
    ensures TotalSize(states[|moves|].lists) == TotalSize(s0.lists) - 1 && Credits(states[|moves|].threads) == 0
  {
    var r := Room(0, s0.lists[a].cacheSize, s0.lists[a].maxCacheSize, s0.lists[b].cacheSize);
    var s, mine, yours := GetObjects(c, s0, a, b, r);
    var ready, r', last := FillUp(c, s0, s, 0, a, b, r, mine);
    StillHeld(s, ready, 0, 1, a, yours);
    var away := BothSteal(c, s0, ready, a, b, r', last, yours);
    var s' := TooLate(c, s0, away, a, b, r'.(other := r'.other - 2));
    NoneOwed(s'.threads);
    states, moves :| RunTo(c, s0, s', states, moves);
  }
}
