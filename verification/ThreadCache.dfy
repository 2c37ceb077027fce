/** The per-thread cache: free lists by size class, refilled from and drained to the central lists in amounts
    chosen by the sampled reuse tables. */
module ThreadCaching {
  import opened Common
  import opened Reuse
  import S = Sampling

  type Object = int

  /** The first object of a list and the rest; nothing from an empty list. */
  predicate Popped(list: seq<Object>, first: Option<Object>, rest: seq<Object>) {
    match first
    case Some(o) => list == [o] + rest
    case None => list == rest == []
  }

  /** The sampling state of one size class: the circular buffer of free times, the recorded intervals and the
      tables calculated from them. */
  class Sampler {
    const period: int
    const circle: array<int>
    const starts: array<int>
    const ends: array<int>
    const reuse: array<real>
    const reserved: array<int>
    var timeCnt: int
    var cbNext: int
    var reuseCnt: int
    var inProgress: bool
    var burstyStart: int
    var hibernateCounter: int
    var effectiveTraceLen: int
    ghost var stack: seq<int>
    ghost var sample: seq<Interval>
    ghost const Repr: set<object>

    ghost predicate ReprOk() {
      && Repr == {this, circle, starts, ends, reuse, reserved}
      && circle != starts && circle != ends && circle != reserved
      && starts != ends && starts != reserved && ends != reserved
      && circle.Length == TRACE_LENGTH
      && starts.Length == ends.Length == reuse.Length == reserved.Length == TRACE_LENGTH + 1
    }

    /** Position p holds the free time pushed Age(p) pushes ago, or -1 if that one is no longer on the stack. */
    static ghost function Age(next: int, p: int): int {
      if p < next then next - 1 - p else next - 1 - p + TRACE_LENGTH
    }

    static ghost predicate Holds(buffer: seq<int>, next: int, s: seq<int>) {
      && |buffer| == TRACE_LENGTH && 0 <= next < TRACE_LENGTH && |s| <= TRACE_LENGTH
      && forall p :: 0 <= p < TRACE_LENGTH ==>
           buffer[p] == if Age(next, p) < |s| then s[|s| - 1 - Age(next, p)] else -1
    }

    static lemma PushHolds(buffer: seq<int>, next: int, s: seq<int>, t: int)
      requires Holds(buffer, next, s)
      ensures Holds(buffer[next := t], (next + 1) % TRACE_LENGTH, S.Push(S.Bounded, s, t))
    {
    }

    static lemma PopHolds(buffer: seq<int>, next: int, s: seq<int>)
      requires Holds(buffer, next, s)
      ensures var top := (next - 1 + TRACE_LENGTH) % TRACE_LENGTH;
              if s == [] then buffer[top] == -1
              else buffer[top] == s[|s| - 1] && Holds(buffer[top := -1], top, s[..|s| - 1])
    {
    }

    ghost function Abstract(): S.Model
      requires ReprOk() && 0 <= reuseCnt <= TRACE_LENGTH
      reads this, starts, ends
    {
      S.Model(stack, timeCnt, inProgress, burstyStart, Recorded(starts[..], ends[..], reuseCnt),
              hibernateCounter, effectiveTraceLen, sample)
    }

    /** The buffer refines the stack, and the tables are those of the last sample. */
    ghost predicate Valid()
      reads this, circle, starts, ends, reuse, reserved
    {
      && ReprOk()
      && 0 <= reuseCnt <= TRACE_LENGTH
      && (period == -1 || period > 0)
      && Holds(circle[..], cbNext, stack)
      && (effectiveTraceLen != 0 ==>
            Tables(sample, effectiveTraceLen, effectiveTraceLen, reuse[..], reserved[..]))
    }

    constructor (period: int)
      requires period == -1 || period > 0
      ensures Valid() && Abstract() == S.Initial && fresh(Repr)
    {
      this.period := period;
      var c := new int[TRACE_LENGTH](_ => -1);
      var s := new int[TRACE_LENGTH + 1](_ => -1);
      var e := new int[TRACE_LENGTH + 1](_ => -1);
      var u := new real[TRACE_LENGTH + 1](_ => 0.0);
      var r := new int[TRACE_LENGTH + 1](_ => 0);
      circle, starts, ends, reuse, reserved := c, s, e, u, r;
      timeCnt, cbNext, reuseCnt, inProgress, burstyStart := 0, 0, 0, true, 0;
      hibernateCounter, effectiveTraceLen := 1, 0;
      stack, sample := [], [];
      Repr := {this, c, s, e, u, r};
    }

    /** A free inside a burst is pushed on the circular buffer, over the oldest entry when that is full. */
    method RecordFree()
      requires Valid()
      modifies this, circle
      ensures Valid() && Abstract() == S.Release(S.Bounded, old(Abstract()))
    {
      if inProgress {
        PushHolds(circle[..], cbNext, stack, timeCnt);
        ghost var after := circle[..][cbNext := timeCnt];
        circle[cbNext] := timeCnt;
        assert circle[..] == after;
        cbNext := (cbNext + 1) % TRACE_LENGTH;
        stack := S.Push(S.Bounded, stack, timeCnt);
      }
    }

    /** Take the latest entry off the circular buffer. */
    method PopFree(top: int)
      requires Valid() && stack != [] && top == (cbNext - 1 + TRACE_LENGTH) % TRACE_LENGTH
      modifies this`cbNext, this`stack, circle
      ensures Valid() && stack == old(stack)[..|old(stack)| - 1]
    {
      PopHolds(circle[..], cbNext, stack);
      ghost var after := circle[..][top := -1];
      circle[top] := -1;
      assert circle[..] == after;
      cbNext := top;
      stack := stack[..|stack| - 1];
    }

    /** Record one interval. */
    method RecordInterval(s: int, e: int)
      requires Valid() && reuseCnt < TRACE_LENGTH
      modifies this`reuseCnt, starts, ends
      ensures Valid() && reuseCnt == old(reuseCnt) + 1
      ensures Recorded(starts[..], ends[..], reuseCnt) ==
              old(Recorded(starts[..], ends[..], reuseCnt)) + [Interval(s, e)]
    {
      starts[reuseCnt], ends[reuseCnt] := s, e;
      reuseCnt := reuseCnt + 1;
    }

    /** The first half of UpdateReuse: pop the latest free of the burst and record the interval. */
    method MatchFree()
      requires Valid() && S.Inv(Abstract()) && inProgress
      modifies this, circle, starts, ends
      ensures Valid() && Abstract() == S.Match(old(Abstract()))
    {
      var top := (cbNext - 1 + TRACE_LENGTH) % TRACE_LENGTH;
      PopHolds(circle[..], cbNext, stack);
      var sTime := circle[top];
      if sTime >= burstyStart {
        PopFree(top);
        RecordInterval(sTime - burstyStart, timeCnt - burstyStart);
      }
    }

    method UpdateReuse()
      requires Valid() && S.Inv(Abstract()) && inProgress
      modifies Repr
      ensures Valid() && Abstract() == S.Recalculate(S.Match(old(Abstract())), period)
    {
      S.MatchKeeps(Abstract());
      MatchFree();
      Recalculate();
    }

    /** The second half: at the update points the tables are calculated anew, and the last of them ends the burst. */
    method Recalculate()
      requires Valid() && inProgress && S.IntervalsOk(S.Tick(Abstract())) && S.PhaseOk(Abstract())
      modifies Repr
      ensures Valid() && Abstract() == S.Recalculate(old(Abstract()), period)
    {
      var n := timeCnt - burstyStart + 1;
      if n == 100 || n == 200 || n == 500 || n == 1000 || n == 5000 || n == 10000 || n == TRACE_LENGTH {
        effectiveTraceLen := n;
        CalculateReuse(starts, ends, reuseCnt, n, reuse, reserved);
        sample := Recorded(starts[..], ends[..], reuseCnt);
        if n == TRACE_LENGTH {
          reuseCnt := 0;
          inProgress := false;
          hibernateCounter := period;
        }
      }
    }

    /** What an allocation does to the sampling state before it is counted. */
    method Observe()
      requires Valid() && S.Inv(Abstract())
      modifies Repr
      ensures Valid() && Abstract() == S.Observe(old(Abstract()), period) && S.MidInv(Abstract())
    {
      S.ObserveKeeps(Abstract(), period);
      if inProgress {
        UpdateReuse();
      } else if period != -1 {
        hibernateCounter := hibernateCounter - 1;
        if hibernateCounter == 0 {
          inProgress := true;
          burstyStart := timeCnt + 1;
        }
      }
    }

    /** The amount of a refill meant to last for apf allocations. */
    method ChooseTarget(apf: int) returns (target: int)
      requires Valid() && S.SampleOk(Abstract()) && 1 <= apf
      ensures target == Demand(Abstract(), apf)
    {
      if effectiveTraceLen != 0 {
        if apf <= effectiveTraceLen {
          target := reserved[apf];
        } else {
          target := Scaled(reserved[100], apf);
        }
      } else {
        target := Unsampled(apf);
      }
    }

    /** The sampling side of an allocation, with the amount a refill would ask for: the target is chosen after
        the allocation is observed and before it is counted. */
    method RecordAllocation(presetApf: int, syncs: int) returns (target: int)
      requires Valid() && S.Inv(Abstract()) && presetApf >= 1
      modifies Repr
      ensures Valid() && S.Inv(Abstract())
      ensures Abstract() == S.Step(S.Bounded, old(Abstract()), S.Allocation, period)
      ensures var m := S.Observe(old(Abstract()), period);
              && S.SampleOk(m) && target == Demand(m, TargetApf(presetApf, syncs, m.time)) && target >= 1
              && Suffices(target, m, (syncs + 1) * presetApf - m.time, presetApf)
    {
      Observe();
      target := PlanRefill(presetApf, syncs);
      Count();
    }

    method Count()
      requires Valid()
      modifies this`timeCnt
      ensures Valid() && Abstract() == S.Tick(old(Abstract()))
    {
      timeCnt := timeCnt + 1;
    }

    /** How much a refill would ask for now. */
    method PlanRefill(presetApf: int, syncs: int) returns (target: int)
      requires Valid() && S.SampleOk(Abstract()) && presetApf >= 1
      ensures target == Demand(Abstract(), TargetApf(presetApf, syncs, timeCnt)) && target >= 1
      ensures Suffices(target, Abstract(), (syncs + 1) * presetApf - timeCnt, presetApf)
    {
      var targetApf := Planned(presetApf, syncs) - timeCnt;
      if targetApf <= 0 {
        targetApf := presetApf;
      }
      target := ChooseTarget(targetApf);
      DemandBounds(Abstract(), targetApf);
      DemandSuffices(Abstract(), presetApf, syncs);
    }
  }

  // ----- the refill policy

  /** Allocations until the next planned synchronisation. */
  function TargetApf(presetApf: int, syncs: int, time: int): int {
    var t := Planned(presetApf, syncs) - time;
    if t <= 0 then presetApf else t
  }

  /** The time of the next planned synchronisation. */
  function Planned(presetApf: int, syncs: int): int { (syncs + 1) * presetApf }

  /** The reserve for 100 allocations, scaled. */
  function Scaled(reserved: int, apf: int): int { reserved * apf / 100 }

  /** Before anything has been sampled: 0.618 of the allocations, rounded up by adding one. */
  function Unsampled(apf: int): int { 618 * apf / 1000 + 1 }

  lemma ScaledBounds(r: int, apf: int)
    requires 1 <= r <= 100 < apf
    ensures 1 <= Scaled(r, apf) <= apf
  {
    assert apf <= r * apf <= 100 * apf;
  }

  /** The refill for the next apf allocations, in terms of the brute-force averages of the last sample. */
  ghost function Demand(m: S.Model, apf: int): int
    requires S.SampleOk(m) && 1 <= apf
  {
    if m.traceLen == 0 then Unsampled(apf)
    else if apf <= m.traceLen then Reserve(m.sample, m.traceLen, apf)
    else Scaled(Reserve(m.sample, m.traceLen, 100), apf)
  }

  /** For every sampled trace a refill asks for at least one object, and for at most one more than the
      allocations it is meant to cover. */
  lemma DemandBounds(m: S.Model, apf: int)
    requires S.SampleOk(m) && 1 <= apf
    ensures 1 <= Demand(m, apf) <= apf + 1
  {
    if m.traceLen == 0 {
    } else if apf <= m.traceLen {
      ReserveBounds(m.sample, m.traceLen, apf);
    } else {
      ReserveBounds(m.sample, m.traceLen, 100);
      ScaledBounds(Reserve(m.sample, m.traceLen, 100), apf);
    }
  }

  /** A refill of t objects is what the next allocations take: as many allocations as are left until the planned
      synchronisation, or one whole period if that is past. Without a sample, 0.618 of them and less than one more;
      within the sampled lengths, the reserve for that length; beyond them, the reserve for 100, in proportion. */
  ghost predicate Suffices(t: int, m: S.Model, left: int, period: int)
    requires m.traceLen == 0 || m.traceLen >= 100
  {
    var a, average := if left > 0 then left else period, Averages(m.sample, m.traceLen);
    if m.traceLen == 0 then 1000 * (t - 1) <= 618 * a < 1000 * t
    else if a <= m.traceLen then IsReserve(t, a, average)
    else exists r {:trigger IsReserve(r, 100, average)} ::
           IsReserve(r, 100, average) && 100 * t <= r * a < 100 * (t + 1)
  }

  lemma DemandSuffices(m: S.Model, presetApf: int, syncs: int)
    requires S.SampleOk(m) && presetApf >= 1
    ensures m.traceLen == 0 || m.traceLen >= 100
    ensures Suffices(Demand(m, TargetApf(presetApf, syncs, m.time)), m, (syncs + 1) * presetApf - m.time, presetApf)
  {
    var left := (syncs + 1) * presetApf - m.time;
    var a := if left > 0 then left else presetApf;
    assert TargetApf(presetApf, syncs, m.time) == a;
    if m.traceLen == 0 {
    } else if a <= m.traceLen {
      ReserveIs(m.sample, m.traceLen, a);
    } else {
      ReserveIs(m.sample, m.traceLen, 100);
      Proportion(Reserve(m.sample, m.traceLen, 100), a);
    }
  }

  lemma Proportion(r: int, a: int)
    ensures 100 * Scaled(r, a) <= r * a < 100 * (Scaled(r, a) + 1)
  {
  }

  // ----- the lists

  /** Bytes held by the first n lists. */
  ghost function Bytes(lists: seq<seq<Object>>, byteSize: seq<nat>, n: nat): int
    requires n <= |lists| && n <= |byteSize|
  {
    if n == 0 then 0 else Bytes(lists, byteSize, n - 1) + |lists[n - 1]| * byteSize[n - 1]
  }

  lemma {:induction false} BytesEmpty(lists: seq<seq<Object>>, byteSize: seq<nat>, n: nat)
    requires n <= |lists| && n <= |byteSize| && forall cl :: 0 <= cl < n ==> lists[cl] == []
    ensures Bytes(lists, byteSize, n) == 0
  {
    if n == 0 {
    } else {
      BytesEmpty(lists, byteSize, n - 1);
    }
  }

  lemma {:induction false} BytesUpdate(lists: seq<seq<Object>>, byteSize: seq<nat>, n: nat, cl: nat, l: seq<Object>)
    requires n <= |lists| == |byteSize| && cl < |lists|
    ensures Bytes(lists[cl := l], byteSize, n)
         == Bytes(lists, byteSize, n) + if cl < n then |l| * byteSize[cl] - |lists[cl]| * byteSize[cl] else 0
  {
    if n == 0 {
    } else {
      BytesUpdate(lists, byteSize, n - 1, cl, l);
    }
  }

  ghost function Concat(chains: seq<seq<Object>>): seq<Object> {
    if chains == [] then [] else Concat(chains[..|chains| - 1]) + chains[|chains| - 1]
  }

  /** Chains as handed to the central list: all of the batch size but the last, which is not empty. */
  ghost predicate Batched(chains: seq<seq<Object>>, batch: nat) {
    && |chains| > 0
    && (forall i :: 0 <= i < |chains| - 1 ==> |chains[i]| == batch)
    && 1 <= |chains[|chains| - 1]| <= batch
  }

  /** Pop n objects off the list in chains of the batch size. */
  method PopChains(list: seq<Object>, n: nat, batch: nat) returns (rest: seq<Object>, chains: seq<seq<Object>>)
    requires 1 <= n <= |list| && 1 <= batch
    ensures rest == list[n..] && Concat(chains) == list[..n] && Batched(chains, batch)
  {
    var left := n;
    rest, chains := list, [];
    while left > batch
      invariant 1 <= left <= n && rest == list[n - left..]
      invariant Concat(chains) == list[..n - left]
      invariant forall i :: 0 <= i < |chains| ==> |chains[i]| == batch
    {
      assert list[..n - left + batch] == list[..n - left] + rest[..batch];
      var longer := chains + [rest[..batch]];
      assert longer[..|chains|] == chains;
      chains, rest := longer, rest[batch..];
      left := left - batch;
    }
    assert list[..n] == list[..n - left] + rest[..left];
    var all := chains + [rest[..left]];
    assert all[..|chains|] == chains;
    chains, rest := all, rest[left..];
  }

  class ThreadCache {
    const byteSize: seq<nat>      // object size by class
    const batchSize: seq<nat>     // objects moved between caches at a time, by class
    const presetApf: int          // allocations per synchronisation
    const samplers: seq<Sampler>
    var lists: seq<seq<Object>>
    var lastReserved: seq<int>
    var fetchedSyncs: seq<int>
    var size: int
    ghost const Repr: set<object>

    /** Every list holds at most twice its last refill plus one, and size accounts for all of them. */
    ghost predicate ListsOk()
      reads this
    {
      && |byteSize| == |batchSize| == |samplers| == |lists| == |lastReserved| == |fetchedSyncs|
      && presetApf >= 1
      && (forall cl :: 0 <= cl < |batchSize| ==> batchSize[cl] >= 1)
      && (forall cl :: 0 <= cl < |lists| ==> lastReserved[cl] >= 0)
      && (forall cl :: 0 <= cl < |lists| ==> |lists[cl]| <= 2 * lastReserved[cl] + 1)
      && size == Bytes(lists, byteSize, |lists|)
    }

    ghost predicate ReprOk() {
      && this in Repr
      && (forall cl :: 0 <= cl < |samplers| ==> samplers[cl].Repr <= Repr && this !in samplers[cl].Repr)
      && (forall i, j :: 0 <= i < j < |samplers| ==> samplers[i].Repr !! samplers[j].Repr)
    }

    ghost predicate SamplerOk(cl: nat)
      requires ReprOk() && cl < |samplers|
      reads Repr
    {
      var s := samplers[cl];
      s.ReprOk() && s.Valid() && S.Inv(s.Abstract())
    }

    ghost predicate Valid()
      reads this, Repr
    {
      ListsOk() && ReprOk() && forall cl :: 0 <= cl < |samplers| ==> SamplerOk(cl)
    }

    ghost function Sampling(cl: nat): S.Model
      requires Valid() && cl < |samplers|
      reads this, Repr
    {
      assert SamplerOk(cl);
      samplers[cl].Abstract()
    }

    constructor (byteSize: seq<nat>, batchSize: seq<nat>, presetApf: int, samplers: seq<Sampler>,
                 ghost owned: set<object>)
      requires |byteSize| == |batchSize| == |samplers| && presetApf >= 1
      requires forall cl :: 0 <= cl < |batchSize| ==> batchSize[cl] >= 1
      requires forall i, j :: 0 <= i < j < |samplers| ==> samplers[i].Repr !! samplers[j].Repr
      requires forall cl :: 0 <= cl < |samplers| ==> samplers[cl].Valid() && samplers[cl].Abstract() == S.Initial
      requires forall cl :: 0 <= cl < |samplers| ==> samplers[cl].Repr <= owned
      ensures Valid() && size == 0
      ensures forall cl :: 0 <= cl < |lists| ==> lists[cl] == [] && lastReserved[cl] == 0 && fetchedSyncs[cl] == 0
    {
      this.byteSize, this.batchSize, this.presetApf, this.samplers := byteSize, batchSize, presetApf, samplers;
      lists := seq(|samplers|, _ => []);
      lastReserved := seq(|samplers|, _ => 0);
      fetchedSyncs := seq(|samplers|, _ => 0);
      size := 0;
      Repr := {this} + owned;
      new;
      BytesEmpty(lists, byteSize, |lists|);
      forall cl | 0 <= cl < |samplers|
        ensures samplers[cl].Repr <= Repr && this !in samplers[cl].Repr && samplers[cl].Valid()
      {
        assert samplers[cl].ReprOk();
      }
      assert forall cl :: 0 <= cl < |samplers| ==> SamplerOk(cl);
    }

    /** Replace one list and account for the difference. */
    method SetList(cl: nat, list: seq<Object>)
      requires ListsOk() && cl < |lists| && |list| <= 2 * lastReserved[cl] + 1
      modifies this`lists, this`size
      ensures ListsOk() && lists == old(lists)[cl := list]
      ensures size == old(size) + (|list| - |old(lists[cl])|) * byteSize[cl]
    {
      BytesUpdate(lists, byteSize, |lists|, cl, list);
      size := size + (|list| - |lists[cl]|) * byteSize[cl];
      lists := lists[cl := list];
    }

    /** The list half of an allocation: refill an empty list with target objects, then pop. The code pops even when the
        refill brought nothing, which no program survives; that is the result None. */
    method TakeObject(cl: nat, target: int, fetch: int -> seq<Object>) returns (res: Option<Object>)
      requires ListsOk() && cl < |lists|
      requires lists[cl] == [] ==> |fetch(target)| <= target
      modifies this
      ensures ListsOk() && lists == old(lists)[cl := lists[cl]]
      ensures old(lists[cl]) != [] ==>
                && Popped(old(lists[cl]), res, lists[cl])
                && lastReserved == old(lastReserved) && fetchedSyncs == old(fetchedSyncs)
      ensures old(lists[cl]) == [] ==>
                && Popped(fetch(target), res, lists[cl])
                && lastReserved == old(lastReserved)[cl := target]
                && fetchedSyncs == old(fetchedSyncs)[cl := old(fetchedSyncs[cl]) + 1]
      ensures size == old(size) + (|lists[cl]| - |old(lists[cl])|) * byteSize[cl]
    {
      if lists[cl] == [] {
        Refill(cl, target, fetch(target));
      }
      res := PopObject(cl);
    }

    /** Note the target and put what was fetched on the empty list. */
    method Refill(cl: nat, target: int, fetched: seq<Object>)
      requires ListsOk() && cl < |lists| && lists[cl] == [] && |fetched| <= target
      modifies this
      ensures ListsOk() && lists == old(lists)[cl := fetched] && size == old(size) + |fetched| * byteSize[cl]
      ensures lastReserved == old(lastReserved)[cl := target]
      ensures fetchedSyncs == old(fetchedSyncs)[cl := old(fetchedSyncs[cl]) + 1]
    {
      lastReserved := lastReserved[cl := target];
      SetList(cl, fetched);
      fetchedSyncs := fetchedSyncs[cl := fetchedSyncs[cl] + 1];
    }

    method PopObject(cl: nat) returns (res: Option<Object>)
      requires ListsOk() && cl < |lists|
      modifies this`lists, this`size
      ensures ListsOk() && lists == old(lists)[cl := lists[cl]] && Popped(old(lists[cl]), res, lists[cl])
      ensures size == old(size) - if res.Some? then byteSize[cl] else 0
    {
      if lists[cl] == [] {
        return None;
      }
      res := Some(lists[cl][0]);
      SetList(cl, lists[cl][1..]);
    }

    /** Take an object of class cl, refilling an empty list first. fetch is the central list: asked for n
        objects it delivers at most n. There is no object only if there was none and the central list had none. */
    method Allocate(cl: nat, fetch: int -> seq<Object>) returns (res: Option<Object>)
      requires Valid() && cl < |lists|
      requires forall n :: n >= 1 ==> |fetch(n)| <= n
      modifies Repr
      ensures Valid()
      ensures Sampling(cl) == S.Step(S.Bounded, old(Sampling(cl)), S.Allocation, samplers[cl].period)
      ensures old(lists[cl]) != [] ==>
                && Popped(old(lists[cl]), res, lists[cl])
                && lastReserved == old(lastReserved) && fetchedSyncs == old(fetchedSyncs)
      ensures old(lists[cl]) == [] ==>
                var m := S.Observe(old(Sampling(cl)), samplers[cl].period);
                && S.SampleOk(m)
                && var target := Demand(m, TargetApf(presetApf, old(fetchedSyncs[cl]), m.time));
                && Suffices(target, m, (old(fetchedSyncs[cl]) + 1) * presetApf - m.time, presetApf)
                && Popped(fetch(target), res, lists[cl])
                && lastReserved == old(lastReserved)[cl := target]
                && fetchedSyncs == old(fetchedSyncs)[cl := old(fetchedSyncs[cl]) + 1]
      ensures lists == old(lists)[cl := lists[cl]]
      ensures size == old(size) + (|lists[cl]| - |old(lists[cl])|) * byteSize[cl]
    {
      var target := SampleAllocation(cl);
      label Sampled:
      res := TakeObject(cl, target, fetch);
      forall i | 0 <= i < |samplers|
        ensures SamplerOk(i) && samplers[i].Abstract() == old@Sampled(samplers[i].Abstract())
      {
        assert old@Sampled(SamplerOk(i));
      }
    }

    /** The sampling half of an allocation, with the refill target it implies. */
    method SampleAllocation(cl: nat) returns (target: int)
      requires Valid() && cl < |lists|
      modifies samplers[cl].Repr
      ensures Valid() && target >= 1
      ensures Sampling(cl) == S.Step(S.Bounded, old(Sampling(cl)), S.Allocation, samplers[cl].period)
      ensures var m := S.Observe(old(Sampling(cl)), samplers[cl].period);
              && S.SampleOk(m) && target == Demand(m, TargetApf(presetApf, fetchedSyncs[cl], m.time))
              && Suffices(target, m, (fetchedSyncs[cl] + 1) * presetApf - m.time, presetApf)
    {
      assert SamplerOk(cl);
      target := samplers[cl].RecordAllocation(presetApf, fetchedSyncs[cl]);
      forall i | 0 <= i < |samplers|
        ensures SamplerOk(i)
      {
        if i != cl {
          assert old(SamplerOk(i)) && samplers[i].Repr !! samplers[cl].Repr;
        }
      }
    }

    /** Hand n objects of the list back to the central list, in chains of the batch size. */
    method ReleaseToCentralCache(cl: nat, n: nat) returns (chains: seq<seq<Object>>)
      requires ListsOk() && cl < |lists| && 1 <= n <= |lists[cl]|
      modifies this`lists, this`size
      ensures ListsOk() && lists == old(lists)[cl := old(lists[cl])[n..]]
      ensures Concat(chains) == old(lists[cl])[..n] && Batched(chains, batchSize[cl])
      ensures size == old(size) - n * byteSize[cl]
    {
      var rest;
      rest, chains := PopChains(lists[cl], n, batchSize[cl]);
      SetList(cl, rest);
    }

    /** The list half of a free: push, then return what exceeds the bound to the central list. */
    method PutObject(ptr: Object, cl: nat) returns (chains: seq<seq<Object>>)
      requires ListsOk() && cl < |lists|
      modifies this`lists, this`size
      ensures ListsOk() && lists == old(lists)[cl := lists[cl]]
      ensures [ptr] + old(lists[cl]) == Concat(chains) + lists[cl]
      ensures var expectation, length := lastReserved[cl], |old(lists[cl])| + 1;
              if length > expectation * 2 + 1 then
                && Batched(chains, batchSize[cl])
                && |lists[cl]| == if expectation > 0 then expectation else length - length / 2
              else chains == []
      ensures size == old(size) + (|lists[cl]| - |old(lists[cl])|) * byteSize[cl]
    {
      chains := [];
      var list := [ptr] + lists[cl];
      var expectation := lastReserved[cl];
      if |list| > expectation * 2 + 1 {
        var n := if expectation > 0 then |list| - expectation else |list| / 2;
        var rest;
        rest, chains := PopChains(list, n, batchSize[cl]);
        assert list == list[..n] + list[n..];
        list := rest;
      } else {
        assert Concat(chains) + list == list;
      }
      SetList(cl, list);
    }

    /** Give an object of class cl back; the chains go to the central list. */
    method Deallocate(ptr: Object, cl: nat) returns (chains: seq<seq<Object>>)
      requires Valid() && cl < |lists|
      modifies Repr
      ensures Valid()
      ensures Sampling(cl) == S.Release(S.Bounded, old(Sampling(cl)))
      ensures lists == old(lists)[cl := lists[cl]]
      ensures lastReserved == old(lastReserved) && fetchedSyncs == old(fetchedSyncs)
      ensures [ptr] + old(lists[cl]) == Concat(chains) + lists[cl]
      ensures var expectation, length := lastReserved[cl], |old(lists[cl])| + 1;
              if length > expectation * 2 + 1 then
                && Batched(chains, batchSize[cl])
                && |lists[cl]| == if expectation > 0 then expectation else length - length / 2
              else chains == []
      ensures size == old(size) + (|lists[cl]| - |old(lists[cl])|) * byteSize[cl]
    {
      SampleFree(cl);
      label Sampled:
      chains := PutObject(ptr, cl);
      forall i | 0 <= i < |samplers|
        ensures SamplerOk(i) && samplers[i].Abstract() == old@Sampled(samplers[i].Abstract())
      {
        assert old@Sampled(SamplerOk(i));
      }
    }

    method SampleFree(cl: nat)
      requires Valid() && cl < |lists|
      modifies samplers[cl].Repr
      ensures Valid() && Sampling(cl) == S.Release(S.Bounded, old(Sampling(cl)))
    {
      assert SamplerOk(cl);
      S.ReleaseKeeps(S.Bounded, samplers[cl].Abstract());
      samplers[cl].RecordFree();
      forall i | 0 <= i < |samplers|
        ensures SamplerOk(i)
      {
        if i != cl {
          assert old(SamplerOk(i)) && samplers[i].Repr !! samplers[cl].Repr;
        }
      }
    }

    /** Thread exit: every list is drained into the central lists and nothing is left. */
    method Cleanup() returns (chains: seq<seq<seq<Object>>>)
      requires ListsOk()
      modifies this`lists, this`size
      ensures ListsOk() && size == 0
      ensures |chains| == |lists| && forall cl :: 0 <= cl < |lists| ==>
                lists[cl] == [] && Concat(chains[cl]) == old(lists[cl])
      ensures forall cl :: 0 <= cl < |lists| && old(lists[cl]) != [] ==> Batched(chains[cl], batchSize[cl])
    {
      chains := [];
      var cl := 0;
      while cl < |lists|
        invariant 0 <= cl <= |lists| == |old(lists)| && ListsOk()
        invariant |chains| == cl
        invariant forall c :: 0 <= c < cl ==> lists[c] == [] && Concat(chains[c]) == old(lists[c])
        invariant forall c :: 0 <= c < cl && old(lists[c]) != [] ==> Batched(chains[c], batchSize[c])
        invariant forall c :: cl <= c < |lists| ==> lists[c] == old(lists[c])
      {
        var out := [];
        if |lists[cl]| > 0 {
          out := ReleaseToCentralCache(cl, |lists[cl]|);
        }
        chains := chains + [out];
        cl := cl + 1;
      }
      BytesEmpty(lists, byteSize, |lists|);
    }
  }
}
