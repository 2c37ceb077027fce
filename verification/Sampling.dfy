/** Bursty sampling of reuse intervals for one size class, as a machine over allocations and frees.
    Free times are kept on a stack; an allocation inside a burst pops the latest free of that burst. */
module Sampling {
  import opened Reuse

  /** How many free times the stack keeps: Bounded drops the oldest beyond TRACE_LENGTH. */
  datatype Capacity = Bounded | Unbounded

  datatype Event = Allocation | Free

  datatype Model = Model(
    stack: seq<int>,        // free times, oldest first
    time: int,              // allocations so far
    active: bool,           // is a burst in progress?
    start: int,             // time of the first allocation of the burst
    ivs: seq<Interval>,     // intervals recorded in the burst
    countdown: int,         // allocations left to sleep
    traceLen: int,          // trace length of the last calculation, 0 before the first
    sample: seq<Interval>)  // the intervals the last calculation used

  const Initial: Model := Model([], 0, true, 0, [], 1, 0, [])

  predicate IsUpdatePoint(n: int) {
    n == 100 || n == 200 || n == 500 || n == 1000 || n == 5000 || n == 10000 || n == TRACE_LENGTH
  }

  function Push(c: Capacity, stack: seq<int>, t: int): seq<int> {
    if c == Bounded && |stack| == TRACE_LENGTH then stack[1..] + [t] else stack + [t]
  }

  predicate Reusable(m: Model) {
    m.stack != [] && m.stack[|m.stack| - 1] >= m.start
  }

  /** An allocation inside a burst reuses the latest free of the burst, if there is one. */
  function Match(m: Model): Model {
    if Reusable(m) then
      var top := |m.stack| - 1;
      m.(stack := m.stack[..top], ivs := m.ivs + [Interval(m.stack[top] - m.start, m.time - m.start)])
    else m
  }

  /** At certain trace lengths the reuse tables are recalculated; the full length also ends the burst. */
  function Recalculate(m: Model, period: int): Model {
    var n := m.time - m.start + 1;
    if !IsUpdatePoint(n) then m
    else if n == TRACE_LENGTH then
      m.(traceLen := n, sample := m.ivs, ivs := [], active := false, countdown := period)
    else
      m.(traceLen := n, sample := m.ivs)
  }

  /** Between bursts each allocation counts down; -1 means that only the first burst is sampled. */
  function Sleep(m: Model, period: int): Model {
    if period == -1 then m
    else if m.countdown == 1 then m.(countdown := 0, active := true, start := m.time + 1)
    else m.(countdown := m.countdown - 1)
  }

  function Observe(m: Model, period: int): Model {
    if m.active then Recalculate(Match(m), period) else Sleep(m, period)
  }

  function Tick(m: Model): Model { m.(time := m.time + 1) }

  function Release(c: Capacity, m: Model): Model {
    if m.active then m.(stack := Push(c, m.stack, m.time)) else m
  }

  function Step(c: Capacity, m: Model, e: Event, period: int): Model {
    match e
    case Allocation => Tick(Observe(m, period))
    case Free => Release(c, m)
  }

  function Run(c: Capacity, events: seq<Event>, period: int): Model {
    if events == [] then Initial
    else Step(c, Run(c, events[..|events| - 1], period), events[|events| - 1], period)
  }

  // ----- what every run keeps

  /** No two recorded intervals cross: a later one either starts after the earlier one or encloses its start. */
  ghost predicate Laminar(ivs: seq<Interval>) {
    forall i, j :: 0 <= i < j < |ivs| ==> ivs[j].s <= ivs[i].s || ivs[j].s > ivs[i].e
  }

  ghost predicate Sorted(s: seq<int>) {
    forall i, j :: 0 <= i < j < |s| ==> s[i] <= s[j]
  }

  ghost predicate StackOk(m: Model) {
    && Sorted(m.stack)
    && forall i :: 0 <= i < |m.stack| ==> 0 <= m.stack[i] <= m.time
  }

  /** The recorded intervals, and how the frees still on the stack relate to them. */
  ghost predicate IntervalsOk(m: Model) {
    && InTrace(m.ivs, m.time - m.start)
    && EndsIncrease(m.ivs)
    && Laminar(m.ivs)
    && |m.ivs| <= m.time - m.start
    && forall i, j {:trigger m.stack[i], m.ivs[j]} :: 0 <= i < |m.stack| && 0 <= j < |m.ivs| ==>
         m.stack[i] - m.start <= m.ivs[j].s || m.stack[i] - m.start > m.ivs[j].e
  }

  ghost predicate SampleOk(m: Model) {
    && (m.traceLen == 0 || m.traceLen == 100 || m.traceLen == 200 || m.traceLen == 500 || m.traceLen == 1000)
    && InTrace(m.sample, m.traceLen)
    && EndsIncrease(m.sample)
    && Laminar(m.sample)
  }

  /** The phase of the sampler: inside a burst shorter than the full trace, or asleep with nothing recorded. */
  ghost predicate PhaseOk(m: Model) {
    && 0 <= m.start
    && if m.active then m.start <= m.time < m.start + TRACE_LENGTH else m.ivs == [] && m.start < m.time
  }

  ghost predicate Inv(m: Model) {
    PhaseOk(m) && StackOk(m) && (m.active ==> IntervalsOk(m)) && SampleOk(m)
  }

  /** The invariant between Observe and Tick, when the allocation is recorded but not yet counted. */
  ghost predicate MidInv(m: Model) {
    Inv(Tick(m)) && m.time >= 0 && |m.ivs| <= TRACE_LENGTH
    && forall i :: 0 <= i < |m.stack| ==> m.stack[i] <= m.time
  }

  lemma MatchKeeps(m: Model)
    requires Inv(m) && m.active
    ensures var r := Match(m); IntervalsOk(Tick(r)) && StackOk(r) && r.(stack := m.stack, ivs := m.ivs) == m
    ensures |Match(m).ivs| <= |m.ivs| + 1
  {
    if Reusable(m) {
      var top := |m.stack| - 1;
      var r := Match(m);
      forall i, j | 0 <= i < |r.stack| && 0 <= j < |r.ivs|
        ensures r.stack[i] - r.start <= r.ivs[j].s || r.stack[i] - r.start > r.ivs[j].e
      {
        if j < |m.ivs| {
          assert r.stack[i] == m.stack[i] && r.ivs[j] == m.ivs[j];
        } else {
          assert m.stack[i] <= m.stack[top];
        }
      }
    }
  }

  /** Recalculating keeps what matching left. */
  lemma RecalculateKeeps(m: Model, period: int)
    requires m.active && PhaseOk(m) && StackOk(m) && SampleOk(m) && IntervalsOk(Tick(m)) && |m.ivs| <= TRACE_LENGTH
    ensures MidInv(Recalculate(m, period))
  {
    assert InTrace(m.ivs, m.time - m.start + 1) && EndsIncrease(m.ivs) && Laminar(m.ivs);
  }

  lemma SleepKeeps(m: Model, period: int)
    requires Inv(m) && !m.active
    ensures MidInv(Sleep(m, period))
  {
  }

  lemma ObserveKeeps(m: Model, period: int)
    requires Inv(m)
    ensures MidInv(Observe(m, period))
  {
    if m.active {
      MatchKeeps(m);
      RecalculateKeeps(Match(m), period);
    } else {
      SleepKeeps(m, period);
    }
  }

  lemma ReleaseKeeps(c: Capacity, m: Model)
    requires Inv(m)
    ensures Inv(Release(c, m))
  {
  }

  /** In every reachable state the recorded intervals lie inside the burst, end at distinct times and never
      cross, at most TRACE_LENGTH of them are held, and the last calculation saw such intervals too. */
  lemma {:induction false} RunKeepsInv(c: Capacity, events: seq<Event>, period: int)
    requires period == -1 || period > 0
    ensures Inv(Run(c, events, period))
    ensures |Run(c, events, period).ivs| <= TRACE_LENGTH
  {
    if events == [] {
    } else {
      var m := Run(c, events[..|events| - 1], period);
      RunKeepsInv(c, events[..|events| - 1], period);
      match events[|events| - 1]
      case Allocation => ObserveKeeps(m, period);
      case Free => ReleaseKeeps(c, m);
    }
  }

  /** The last trace length, of those at which the tables are calculated, that a burst of k allocations has reached. */
  function LatestPoint(k: int): int {
    if k >= 1000 then 1000 else if k >= 500 then 500 else if k >= 200 then 200 else if k >= 100 then 100 else 0
  }

  /** In every run the tables in use are those of the latest of the trace lengths 100, 200, 500 and 1000 that the
      burst has reached, and after a burst those of its full length. */
  lemma {:induction false} RunTraceLength(c: Capacity, events: seq<Event>, period: int)
    requires period == -1 || period > 0
    ensures UpToDate(Run(c, events, period))
  {
    if events == [] {
    } else {
      var m := Run(c, events[..|events| - 1], period);
      RunTraceLength(c, events[..|events| - 1], period);
      RunKeepsInv(c, events[..|events| - 1], period);
      StepTraceLength(c, m, events[|events| - 1], period);
    }
  }

  ghost predicate UpToDate(m: Model) {
    if !m.active then m.traceLen == 1000
    else m.time - m.start >= 100 ==> m.traceLen == LatestPoint(m.time - m.start)
  }

  lemma StepTraceLength(c: Capacity, m: Model, e: Event, period: int)
    requires PhaseOk(m) && UpToDate(m)
    ensures UpToDate(Step(c, m, e, period))
  {
  }

  // ----- dropping the oldest free loses nothing

  /** The unbounded stack is the bounded one on top of the dropped entries, and no dropped entry can still be
      reused: either none belongs to this burst, or more kept entries lie above it than the burst has
      allocations left. */
  ghost predicate Lossless(b: Model, u: Model, dropped: seq<int>) {
    && u == b.(stack := dropped + b.stack)
    && |b.stack| <= TRACE_LENGTH
    && (b.active && dropped != [] && dropped[|dropped| - 1] >= b.start ==>
          |b.stack| >= b.start + TRACE_LENGTH - b.time)
  }

  lemma LosslessRelease(b: Model, u: Model, dropped: seq<int>) returns (dropped': seq<int>)
    requires Lossless(b, u, dropped) && PhaseOk(b)
    ensures Lossless(Release(Bounded, b), Release(Unbounded, u), dropped')
  {
    dropped' := dropped;
    if b.active && |b.stack| == TRACE_LENGTH {
      dropped' := dropped + [b.stack[0]];
      assert dropped' + (b.stack[1..] + [b.time]) == (dropped + b.stack) + [b.time];
    } else if b.active {
      assert dropped' + (b.stack + [b.time]) == (dropped + b.stack) + [b.time];
    }
  }

  lemma LosslessObserve(b: Model, u: Model, dropped: seq<int>, period: int)
    requires PhaseOk(b) && StackOk(u) && Lossless(b, u, dropped)
    ensures Lossless(Tick(Observe(b, period)), Tick(Observe(u, period)), dropped)
  {
    if b.active {
      LosslessMatch(b, u, dropped);
    } else {
      assert forall i :: 0 <= i < |dropped| ==> dropped[i] == u.stack[i];
    }
  }

  lemma LosslessMatch(b: Model, u: Model, dropped: seq<int>)
    requires PhaseOk(b) && Lossless(b, u, dropped) && b.active
    ensures Match(u) == Match(b).(stack := dropped + Match(b).stack)
    ensures |Match(b).stack| >= |b.stack| - 1
  {
    if b.stack != [] {
      var top := |u.stack| - 1;
      assert u.stack[top] == b.stack[|b.stack| - 1];
      assert u.stack[..top] == dropped + b.stack[..|b.stack| - 1];
    } else {
      assert u.stack == dropped;
    }
  }

  lemma {:induction false} RunsAgree(events: seq<Event>, period: int) returns (dropped: seq<int>)
    requires period == -1 || period > 0
    ensures Lossless(Run(Bounded, events, period), Run(Unbounded, events, period), dropped)
  {
    dropped := [];
    if events == [] {
    } else {
      var before := events[..|events| - 1];
      dropped := RunsAgree(before, period);
      RunKeepsInv(Bounded, before, period);
      RunKeepsInv(Unbounded, before, period);
      var b, u := Run(Bounded, before, period), Run(Unbounded, before, period);
      match events[|events| - 1]
      case Allocation => LosslessObserve(b, u, dropped, period);
      case Free => dropped := LosslessRelease(b, u, dropped);
    }
  }

  /** Over every run, the buffer that forgets the oldest of more than TRACE_LENGTH frees records exactly the
      intervals, and samples exactly the traces, that an unbounded stack would. */
  lemma BoundedBufferIsLossless(events: seq<Event>, period: int)
    requires period == -1 || period > 0
    ensures var b, u := Run(Bounded, events, period), Run(Unbounded, events, period);
            b.ivs == u.ivs && b.sample == u.sample && b.traceLen == u.traceLen && |b.stack| <= TRACE_LENGTH
  {
    var dropped := RunsAgree(events, period);
  }

  // ----- the assertion at the end of a burst

  function Allocations(events: seq<Event>): nat {
    if events == [] then 0
    else Allocations(events[..|events| - 1]) + if events[|events| - 1] == Allocation then 1 else 0
  }

  /** Event i ends a burst. */
  ghost predicate EndsBurst(c: Capacity, events: seq<Event>, period: int, i: nat)
    requires i < |events|
  {
    Run(c, events[..i], period).active && !Run(c, events[..i + 1], period).active
  }

  /** The counter is positive whenever a burst ends, as an assertion in the program demands. */
  ghost predicate AssertionHolds(c: Capacity, events: seq<Event>, period: int) {
    forall i {:trigger EndsBurst(c, events, period, i)} :: 0 <= i < |events| && EndsBurst(c, events, period, i) ==>
      Run(c, events[..i + 1], period).countdown > 0
  }

  /** When a burst ends the counter is the period. */
  lemma CounterIsPeriod(c: Capacity, events: seq<Event>, period: int, i: nat)
    requires i < |events| && EndsBurst(c, events, period, i)
    ensures Run(c, events[..i + 1], period).countdown == period
  {
    assert events[..i + 1][..i] == events[..i];
  }

  /** The first burst lasts exactly TRACE_LENGTH allocations, and with a period of -1 there is no other. */
  lemma {:induction false} FirstBurst(c: Capacity, events: seq<Event>, period: int)
    requires period == -1 || Allocations(events) < TRACE_LENGTH
    ensures var m := Run(c, events, period);
            && m.active == (Allocations(events) < TRACE_LENGTH)
            && (m.active ==> m.start == 0 && m.time == Allocations(events))
  {
    if events == [] {
    } else {
      FirstBurst(c, events[..|events| - 1], period);
    }
  }

  /** A run with enough allocations has a moment at which the first burst ends. */
  lemma {:induction false} FirstBurstEnds(c: Capacity, events: seq<Event>, period: int) returns (i: nat)
    requires period == -1 && Allocations(events) >= TRACE_LENGTH
    ensures i < |events| && EndsBurst(c, events, period, i)
  {
    var last := |events| - 1;
    if Allocations(events[..last]) >= TRACE_LENGTH {
      i := FirstBurstEnds(c, events[..last], period);
      assert events[..last][..i] == events[..i] && events[..last][..i + 1] == events[..i + 1];
    } else {
      i := last;
      FirstBurst(c, events[..last], period);
      FirstBurst(c, events, period);
      assert events[..last + 1] == events;
    }
  }

  /** The assertion holds over a run if and only if the period is positive or the run is too short to end a burst. */
  lemma AssertionHoldsIff(c: Capacity, events: seq<Event>, period: int)
    requires period == -1 || period > 0
    ensures AssertionHolds(c, events, period) <==> period > 0 || Allocations(events) < TRACE_LENGTH
  {
    forall i | 0 <= i < |events| && EndsBurst(c, events, period, i)
      ensures Run(c, events[..i + 1], period).countdown == period
    {
      CounterIsPeriod(c, events, period, i);
    }
    if period == -1 && Allocations(events) >= TRACE_LENGTH {
      var i := FirstBurstEnds(c, events, period);
    } else if period == -1 {
      forall i | 0 <= i < |events|
        ensures !EndsBurst(c, events, period, i)
      {
        PrefixAllocations(events, i + 1);
        FirstBurst(c, events[..i + 1], period);
      }
    }
  }

  lemma {:induction false} PrefixAllocations(events: seq<Event>, i: nat)
    requires i <= |events|
    ensures Allocations(events[..i]) <= Allocations(events)
  {
    if i < |events| {
      PrefixAllocations(events[..|events| - 1], i);
      assert events[..|events| - 1][..i] == events[..i];
    } else {
      assert events[..i] == events;
    }
  }

  /** With the period the program is built with, TRACE_LENGTH allocations in a row violate the assertion. */
  lemma ShippedPeriodFails(c: Capacity)
    ensures !AssertionHolds(c, seq(TRACE_LENGTH, _ => Allocation), -1)
  {
    var events := seq(TRACE_LENGTH, _ => Allocation);
    OnlyAllocations(events);
    AssertionHoldsIff(c, events, -1);
  }

  lemma {:induction false} OnlyAllocations(events: seq<Event>)
    requires forall i :: 0 <= i < |events| ==> events[i] == Allocation
    ensures Allocations(events) == |events|
  {
    if events == [] {
    } else {
      OnlyAllocations(events[..|events| - 1]);
    }
  }
}
