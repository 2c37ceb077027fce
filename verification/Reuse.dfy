/** The reuse calculation of the thread cache: a linear-time recurrence that averages, over all windows
    of length k of a trace of n allocations, how many free-to-allocation intervals lie inside the window. */
module Reuse {

  const TRACE_LENGTH: nat := 1000

  /** A slot freed at time s and reused by the allocation at time e, both relative to the burst. */
  datatype Interval = Interval(s: int, e: int) {
    function Width(): int { e - s + 1 }
  }

  ghost predicate InTrace(ivs: seq<Interval>, n: int) {
    forall i :: 0 <= i < |ivs| ==> 0 <= ivs[i].s <= ivs[i].e < n
  }

  /** Allocation times are distinct, so interval ends increase strictly. */
  ghost predicate EndsIncrease(ivs: seq<Interval>) {
    forall i, j :: 0 <= i < j < |ivs| ==> ivs[i].e < ivs[j].e
  }

  function Min(a: int, b: int): int { if a < b then a else b }
  function Max(a: int, b: int): int { if a > b then a else b }

  // ----- sums over a list of intervals

  ghost function Sum(ivs: seq<Interval>, f: Interval -> int): int {
    if ivs == [] then 0 else Sum(ivs[..|ivs| - 1], f) + f(ivs[|ivs| - 1])
  }

  lemma {:induction false} SumLinear(ivs: seq<Interval>, r: Interval -> int, f: Interval -> int,
                                     g: Interval -> int, h: Interval -> int)
    requires forall i :: 0 <= i < |ivs| ==> r(ivs[i]) == f(ivs[i]) - g(ivs[i]) + h(ivs[i])
    ensures Sum(ivs, r) == Sum(ivs, f) - Sum(ivs, g) + Sum(ivs, h)
  {
    if ivs == [] {
    } else {
      SumLinear(ivs[..|ivs| - 1], r, f, g, h);
    }
  }

  lemma SumAppend(ivs: seq<Interval>, iv: Interval, f: Interval -> int)
    ensures Sum(ivs + [iv], f) == Sum(ivs, f) + f(iv)
  {
    assert (ivs + [iv])[..|ivs|] == ivs;
  }

  ghost function Nil(): Interval -> int { (iv: Interval) => 0 }

  lemma {:induction false} SumNil(ivs: seq<Interval>, f: Interval -> int)
    requires forall i :: 0 <= i < |ivs| ==> f(ivs[i]) == 0
    ensures Sum(ivs, f) == 0
  {
    if ivs == [] {
    } else {
      SumNil(ivs[..|ivs| - 1], f);
    }
  }

  // ----- the brute-force reference: enumerate every window

  /** 1 when the interval lies inside the window [a, a + k). */
  ghost function Inside(a: int, k: int): Interval -> int {
    (iv: Interval) => if a <= iv.s && iv.e < a + k then 1 else 0
  }

  /** Intervals inside the windows of length k that start at 0, 1, ..., m - 1, counted with repetition. */
  ghost function WindowSum(ivs: seq<Interval>, m: nat, k: int): int {
    if m == 0 then 0 else WindowSum(ivs, m - 1, k) + Sum(ivs, Inside(m - 1, k))
  }

  /** The total over all n - k + 1 windows of length k in a trace of length n. */
  ghost function TotalReuse(ivs: seq<Interval>, n: int, k: int): int
    requires 1 <= k <= n
  {
    WindowSum(ivs, n - k + 1, k)
  }

  // ----- exchanging the two sums

  /** How many of the windows starting before m contain the interval. */
  ghost function Holders(m: int, k: int): Interval -> int {
    (iv: Interval) => Max(0, Min(m - 1, iv.s) - Max(0, iv.e - k + 1) + 1)
  }

  lemma {:induction false} SumExchange(ivs: seq<Interval>, n: int, m: nat, k: int)
    requires InTrace(ivs, n) && 1 <= k
    ensures WindowSum(ivs, m, k) == Sum(ivs, Holders(m, k))
  {
    if m == 0 {
      SumNil(ivs, Holders(0, k));
    } else {
      SumExchange(ivs, n, m - 1, k);
      SumNil(ivs, Nil());
      SumLinear(ivs, Holders(m, k), Holders(m - 1, k), Nil(), Inside(m - 1, k));
    }
  }

  // ----- the three accumulators of the recurrence, as sums over the intervals of width at most k

  ghost function XTerm(n: int, k: int): Interval -> int {
    (iv: Interval) => if iv.Width() <= k then Min(n - k, iv.s) else 0
  }

  ghost function YTerm(k: int): Interval -> int {
    (iv: Interval) => if iv.Width() <= k then Max(k - 1, iv.e) else 0
  }

  ghost function ZTerm(k: int): Interval -> int {
    (iv: Interval) => if iv.Width() <= k then k else 0
  }

  /** X - Y + Z is the brute-force total. */
  lemma AccumulatorsGiveTotal(ivs: seq<Interval>, n: int, k: int)
    requires InTrace(ivs, n) && 1 <= k <= n
    ensures Sum(ivs, XTerm(n, k)) - Sum(ivs, YTerm(k)) + Sum(ivs, ZTerm(k)) == TotalReuse(ivs, n, k)
  {
    SumExchange(ivs, n, n - k + 1, k);
    SumLinear(ivs, Holders(n - k + 1, k), XTerm(n, k), YTerm(k), ZTerm(k));
  }

  // ----- the histograms

  ghost function StartAt(v: int): Interval -> int { (iv: Interval) => if iv.s == v then 1 else 0 }
  ghost function EndAt(v: int): Interval -> int { (iv: Interval) => if iv.e == v then 1 else 0 }
  ghost function GapAt(v: int): Interval -> int { (iv: Interval) => if iv.e - iv.s == v then 1 else 0 }
  ghost function XNew(n: int, k: int): Interval -> int {
    (iv: Interval) => if iv.Width() == k then Min(n - k, iv.s) else 0
  }
  ghost function YNew(k: int): Interval -> int {
    (iv: Interval) => if iv.Width() == k then Max(k - 1, iv.e) else 0
  }
  ghost function ZNew(k: int): Interval -> int {
    (iv: Interval) => if iv.Width() == k then k else 0
  }

  ghost function StartFrom(v: int): Interval -> int { (iv: Interval) => if v <= iv.s then 1 else 0 }
  ghost function EndUpTo(v: int): Interval -> int { (iv: Interval) => if iv.e <= v then 1 else 0 }
  ghost function GapUpTo(v: int): Interval -> int { (iv: Interval) => if iv.e - iv.s <= v then 1 else 0 }

  /** What the running histogram totals XX, YY, ZZ are worth once step k has been taken. */
  ghost predicate Totals(ivs: seq<Interval>, n: int, k: int, xx: int, yy: int, zz: int) {
    && xx == Sum(ivs, StartFrom(n - k + 1))
    && yy == Sum(ivs, EndUpTo(k - 2))
    && zz == Sum(ivs, GapUpTo(k - 2))
  }

  ghost predicate Accumulators(ivs: seq<Interval>, n: int, k: int, x: int, y: int, z: int) {
    && x == Sum(ivs, XTerm(n, k))
    && y == Sum(ivs, YTerm(k))
    && z == Sum(ivs, ZTerm(k))
  }

  lemma TotalsStart(ivs: seq<Interval>, n: int)
    requires InTrace(ivs, n)
    ensures Totals(ivs, n, 1, 0, 0, 0)
  {
    SumNil(ivs, StartFrom(n));
    SumNil(ivs, EndUpTo(-1));
    SumNil(ivs, GapUpTo(-1));
  }

  /** One histogram entry extends each running total by one time unit. */
  lemma TotalsStep(ivs: seq<Interval>, n: int, k: int, xx: int, yy: int, zz: int)
    requires Totals(ivs, n, k - 1, xx, yy, zz)
    ensures Totals(ivs, n, k, xx + Sum(ivs, StartAt(n - (k - 1))), yy + Sum(ivs, EndAt(k - 2)),
                   zz + Sum(ivs, GapAt(k - 2)))
  {
    SumNil(ivs, Nil());
    SumLinear(ivs, StartFrom(n - k + 1), StartFrom(n - k + 2), Nil(), StartAt(n - (k - 1)));
    SumLinear(ivs, EndUpTo(k - 2), EndUpTo(k - 3), Nil(), EndAt(k - 2));
    SumLinear(ivs, GapUpTo(k - 2), GapUpTo(k - 3), Nil(), GapAt(k - 2));
  }

  /** The histograms of starts and ends are not filtered by width, yet at step k they only ever count
      intervals already admitted: an interval starting at n - k + 1 or later, or ending at k - 2 or
      earlier, is at most k - 1 wide. */
  lemma AccumulatorsStep(ivs: seq<Interval>, n: int, k: int, x: int, y: int, z: int, xx: int, yy: int, zz: int)
    requires InTrace(ivs, n) && 2 <= k <= n
    requires Accumulators(ivs, n, k - 1, x, y, z)
    requires Totals(ivs, n, k, xx, yy, zz)
    ensures Accumulators(ivs, n, k, x - xx + Sum(ivs, XNew(n, k)), y + yy + Sum(ivs, YNew(k)),
                         z + zz + Sum(ivs, ZNew(k)))
  {
    SumLinear(ivs, XTerm(n, k), XTerm(n, k - 1), StartFrom(n - k + 1), XNew(n, k));
    var yAdd := (iv: Interval) => EndUpTo(k - 2)(iv) + YNew(k)(iv);
    var zAdd := (iv: Interval) => GapUpTo(k - 2)(iv) + ZNew(k)(iv);
    SumNil(ivs, Nil());
    SumLinear(ivs, yAdd, EndUpTo(k - 2), Nil(), YNew(k));
    SumLinear(ivs, zAdd, GapUpTo(k - 2), Nil(), ZNew(k));
    SumLinear(ivs, YTerm(k), YTerm(k - 1), Nil(), yAdd);
    SumLinear(ivs, ZTerm(k), ZTerm(k - 1), Nil(), zAdd);
  }

  // ----- bounds on the averages

  ghost function EndIn(lo: int, hi: int): Interval -> int { (iv: Interval) => if lo <= iv.e < hi then 1 else 0 }

  lemma {:induction false} SumMono(ivs: seq<Interval>, f: Interval -> int, g: Interval -> int)
    requires forall i :: 0 <= i < |ivs| ==> f(ivs[i]) <= g(ivs[i])
    ensures Sum(ivs, f) <= Sum(ivs, g)
  {
    if ivs == [] {
    } else {
      SumMono(ivs[..|ivs| - 1], f, g);
    }
  }

  lemma {:induction false} DistinctEndsFit(ivs: seq<Interval>, lo: int, hi: int)
    requires EndsIncrease(ivs) && lo <= hi
    ensures Sum(ivs, EndIn(lo, hi)) <= hi - lo
  {
    if ivs == [] {
    } else {
      var front, last := ivs[..|ivs| - 1], ivs[|ivs| - 1];
      if lo <= last.e < hi {
        DistinctEndsFit(front, lo, last.e);
        SumMono(front, EndIn(lo, hi), EndIn(lo, last.e));
      } else {
        DistinctEndsFit(front, lo, hi);
      }
    }
  }

  lemma {:induction false} WindowSumBounds(ivs: seq<Interval>, m: nat, k: int)
    requires 1 <= k && EndsIncrease(ivs)
    requires forall i :: 0 <= i < |ivs| ==> ivs[i].s <= ivs[i].e
    ensures 0 <= WindowSum(ivs, m, k) <= k * m
  {
    if m == 0 {
    } else {
      var a := m - 1;
      WindowSumBounds(ivs, a, k);
      assert k * m == k * a + k;
      SumNil(ivs, Nil());
      SumMono(ivs, Nil(), Inside(a, k));
      SumMono(ivs, Inside(a, k), EndIn(a, a + k));
      DistinctEndsFit(ivs, a, a + k);
    }
  }

  // ----- the reserve derived from the averages

  /** Conversion of a floating-point number to int: toward zero. */
  function Truncate(x: real): (n: int)
    ensures if x >= 0.0 then n as real <= x < (n + 1) as real else (n - 1) as real < x <= n as real
  {
    if x >= 0.0 then x.Floor else -((-x).Floor)
  }

  ghost function AverageReuse(ivs: seq<Interval>, n: int, k: int): real
    requires 1 <= k <= n
  {
    TotalReuse(ivs, n, k) as real / (n - k + 1) as real
  }

  /** Objects to reserve for the next k allocations: k minus the average reuse, never less than one and
      never less than for a shorter window. */
  ghost function Reserve(ivs: seq<Interval>, n: int, k: int): int
    requires 1 <= k <= n
  {
    if k == 1 then 1
    else Max(Reserve(ivs, n, k - 1), Truncate(k as real - AverageReuse(ivs, n, k)))
  }

  /** r is the largest number of whole objects, but at least one, that some window of at most k allocations needs on
      average beyond what it can reuse. */
  ghost predicate IsReserve(r: int, k: int, average: int -> real) {
    && r >= 1
    && (forall j {:trigger average(j)} :: 2 <= j <= k ==> j as real - average(j) < (r + 1) as real)
    && (r == 1 || exists j {:trigger average(j)} :: 2 <= j <= k && r as real <= j as real - average(j))
  }

  /** The averages for a trace of n allocations. */
  ghost function Averages(ivs: seq<Interval>, n: int): int -> real {
    j => if 1 <= j <= n then AverageReuse(ivs, n, j) else 0.0
  }

  /** The running maximum of the truncated differences is that number. */
  lemma {:induction false} ReserveIs(ivs: seq<Interval>, n: int, k: int)
    requires 1 <= k <= n
    ensures IsReserve(Reserve(ivs, n, k), k, Averages(ivs, n))
  {
    if k == 1 {
    } else {
      ReserveIs(ivs, n, k - 1);
      var r, x := Reserve(ivs, n, k - 1), k as real - AverageReuse(ivs, n, k);
      ReserveNext(r, Truncate(x), x, k, Averages(ivs, n));
    }
  }

  lemma ReserveNext(r: int, t: int, x: real, k: int, average: int -> real)
    requires IsReserve(r, k - 1, average) && k >= 2 && x == k as real - average(k) && t == Truncate(x)
    ensures IsReserve(Max(r, t), k, average)
  {
    var m := Max(r, t);
    assert x < (m + 1) as real;
    assert m == t && m > r ==> m as real <= k as real - average(k);
    if m == r && r != 1 {
      var j :| 2 <= j <= k - 1 && r as real <= j as real - average(j);
      assert m as real <= j as real - average(j);
    }
  }

  lemma AverageBounds(ivs: seq<Interval>, n: int, k: int)
    requires InTrace(ivs, n) && EndsIncrease(ivs) && 1 <= k <= n
    ensures 0.0 <= AverageReuse(ivs, n, k) <= k as real
  {
    WindowSumBounds(ivs, n - k + 1, k);
    var t, m := TotalReuse(ivs, n, k), n - k + 1;
    assert t as real <= k as real * m as real by {
      assert (k * m) as real == k as real * m as real;
    }
    QuotientBounds(t as real, k as real, m as real);
  }

  lemma QuotientBounds(t: real, k: real, m: real)
    requires 0.0 <= t <= k * m && 0.0 < m
    ensures 0.0 <= t / m <= k
  {
    var q := t / m;
    assert q * m == t;
    if q > k {
      assert q * m > k * m;
    }
  }

  lemma {:induction false} TotalNonNegative(ivs: seq<Interval>, m: nat, k: int)
    ensures 0 <= WindowSum(ivs, m, k)
  {
    if m == 0 {
    } else {
      TotalNonNegative(ivs, m - 1, k);
      SumNil(ivs, Nil());
      SumMono(ivs, Nil(), Inside(m - 1, k));
    }
  }

  lemma {:induction false} ReserveBounds(ivs: seq<Interval>, n: int, k: int)
    requires 1 <= k <= n
    ensures 1 <= Reserve(ivs, n, k) <= k
    ensures forall j :: 1 <= j <= k ==> Reserve(ivs, n, j) <= Reserve(ivs, n, k)
  {
    if k == 1 {
      assert Reserve(ivs, n, 1) == 1;
    } else {
      ReserveBounds(ivs, n, k - 1);
      TotalNonNegative(ivs, n - k + 1, k);
      var t, m := TotalReuse(ivs, n, k) as real, (n - k + 1) as real;
      assert t / m >= 0.0 by {
        var q := t / m;
        assert q * m == t;
      }
      assert Truncate(k as real - AverageReuse(ivs, n, k)) <= k;
    }
  }

  // ----- the calculation itself

  /** The recorded intervals, read from the two parallel arrays. */
  ghost function Recorded(starts: seq<int>, ends: seq<int>, count: nat): (ivs: seq<Interval>)
    requires count <= |starts| && count <= |ends|
    ensures |ivs| == count && forall i :: 0 <= i < count ==> ivs[i] == Interval(starts[i], ends[i])
  {
    seq(count, i requires 0 <= i < count => Interval(starts[i], ends[i]))
  }

  /** Each entry v of the histogram is the sum of f(v) over the intervals. */
  ghost predicate Tabulates(h: seq<int>, ivs: seq<Interval>, f: int -> Interval -> int) {
    && |h| == TRACE_LENGTH + 1
    && forall v :: 0 <= v <= TRACE_LENGTH ==> h[v] == Sum(ivs, f(v))
  }

  lemma TabulatesStep(h: seq<int>, ivs: seq<Interval>, f: int -> Interval -> int, iv: Interval, at: int, d: int)
    requires Tabulates(h, ivs, f) && 0 <= at <= TRACE_LENGTH
    requires f(at)(iv) == d && forall v :: 0 <= v <= TRACE_LENGTH && v != at ==> f(v)(iv) == 0
    ensures Tabulates(h[at := h[at] + d], ivs + [iv], f)
  {
    forall v | 0 <= v <= TRACE_LENGTH
      ensures h[at := h[at] + d][v] == Sum(ivs + [iv], f(v))
    {
      SumAppend(ivs, iv, f(v));
    }
  }

  ghost function StartAts(): int -> Interval -> int { v => StartAt(v) }
  ghost function EndAts(): int -> Interval -> int { v => EndAt(v) }
  ghost function GapAts(): int -> Interval -> int { v => GapAt(v) }
  ghost function XNews(n: int): int -> Interval -> int { v => XNew(n, v) }
  ghost function YNews(): int -> Interval -> int { v => YNew(v) }
  ghost function ZNews(): int -> Interval -> int { v => ZNew(v) }

  /** The six histograms filled by the first loop of the calculation. */
  ghost predicate Histograms(ivs: seq<Interval>, n: int, x1: seq<int>, x2: seq<int>,
                             y1: seq<int>, y2: seq<int>, z1: seq<int>, z2: seq<int>)
  {
    && Tabulates(x1, ivs, StartAts()) && Tabulates(x2, ivs, XNews(n))
    && Tabulates(y1, ivs, EndAts()) && Tabulates(y2, ivs, YNews())
    && Tabulates(z1, ivs, GapAts()) && Tabulates(z2, ivs, ZNews())
  }

  lemma HistogramsEmpty(n: int, h: seq<int>)
    requires |h| == TRACE_LENGTH + 1 && forall v :: 0 <= v <= TRACE_LENGTH ==> h[v] == 0
    ensures Histograms([], n, h, h, h, h, h, h)
  {
  }

  lemma HistogramsStep(ivs: seq<Interval>, iv: Interval, n: int, x1: seq<int>, x2: seq<int>,
                       y1: seq<int>, y2: seq<int>, z1: seq<int>, z2: seq<int>)
    requires Histograms(ivs, n, x1, x2, y1, y2, z1, z2)
    requires 0 <= iv.s <= iv.e < n <= TRACE_LENGTH
    ensures var w := iv.Width();
            Histograms(ivs + [iv], n, x1[iv.s := x1[iv.s] + 1], x2[w := x2[w] + Min(n - w, iv.s)],
                       y1[iv.e := y1[iv.e] + 1], y2[w := y2[w] + Max(w - 1, iv.e)],
                       z1[iv.e - iv.s := z1[iv.e - iv.s] + 1], z2[w := z2[w] + w])
  {
    var w := iv.Width();
    TabulatesStep(x1, ivs, StartAts(), iv, iv.s, 1);
    TabulatesStep(x2, ivs, XNews(n), iv, w, Min(n - w, iv.s));
    TabulatesStep(y1, ivs, EndAts(), iv, iv.e, 1);
    TabulatesStep(y2, ivs, YNews(), iv, w, Max(w - 1, iv.e));
    TabulatesStep(z1, ivs, GapAts(), iv, iv.e - iv.s, 1);
    TabulatesStep(z2, ivs, ZNews(), iv, w, w);
  }

  method AddAt(h: array<int>, at: int, d: int)
    requires 0 <= at < h.Length
    modifies h
    ensures h[..] == old(h[..])[at := old(h[at]) + d]
  {
    h[at] := h[at] + d;
  }

  /** The histogram updates for one recorded interval. */
  method Tally(iv: Interval, n: int, x1: array<int>, x2: array<int>, y1: array<int>, y2: array<int>,
               z1: array<int>, z2: array<int>, ghost ivs: seq<Interval>)
    requires 0 <= iv.s <= iv.e < n <= TRACE_LENGTH
    requires x1 != x2 && x1 != y1 && x1 != y2 && x1 != z1 && x1 != z2
    requires x2 != y1 && x2 != y2 && x2 != z1 && x2 != z2
    requires y1 != y2 && y1 != z1 && y1 != z2 && y2 != z1 && y2 != z2 && z1 != z2
    requires Histograms(ivs, n, x1[..], x2[..], y1[..], y2[..], z1[..], z2[..])
    modifies x1, x2, y1, y2, z1, z2
    ensures Histograms(ivs + [iv], n, x1[..], x2[..], y1[..], y2[..], z1[..], z2[..])
  {
    HistogramsStep(ivs, iv, n, x1[..], x2[..], y1[..], y2[..], z1[..], z2[..]);
    var w := iv.e - iv.s + 1;
    AddAt(x1, iv.s, 1);
    AddAt(x2, w, Min(n - w, iv.s));
    AddAt(y1, iv.e, 1);
    AddAt(y2, w, Max(w - 1, iv.e));
    AddAt(z1, iv.e - iv.s, 1);
    AddAt(z2, w, w);
  }

  method Zeroed() returns (h: array<int>)
    ensures fresh(h) && h.Length == TRACE_LENGTH + 1 && h[..] == seq(TRACE_LENGTH + 1, _ => 0)
  {
    h := new int[TRACE_LENGTH + 1](_ => 0);
    assert h[..] == seq(TRACE_LENGTH + 1, _ => 0);
  }

  /** The first loop: one pass over the recorded intervals fills the histograms and the values of the
      accumulators for windows of length one. */
  method FillHistograms(starts: array<int>, ends: array<int>, count: nat, n: int)
    returns (x1: seq<int>, x2: seq<int>, y1: seq<int>, y2: seq<int>, z1: seq<int>, z2: seq<int>,
             x: int, y: int, z: int)
    requires count <= starts.Length && count <= ends.Length
    requires 1 <= n <= TRACE_LENGTH
    requires InTrace(Recorded(starts[..], ends[..], count), n)
    ensures Histograms(Recorded(starts[..], ends[..], count), n, x1, x2, y1, y2, z1, z2)
    ensures Accumulators(Recorded(starts[..], ends[..], count), n, 1, x, y, z)
  {
    ghost var ivs := Recorded(starts[..], ends[..], count);
    x, y, z := 0, 0, 0;
    var xs1 := Zeroed();
    var xs2 := Zeroed();
    var ys1 := Zeroed();
    var ys2 := Zeroed();
    var zs1 := Zeroed();
    var zs2 := Zeroed();
    HistogramsEmpty(n, xs1[..]);
    var i := 0;
    while i < count
      invariant 0 <= i <= count
      invariant Histograms(ivs[..i], n, xs1[..], xs2[..], ys1[..], ys2[..], zs1[..], zs2[..])
      invariant Accumulators(ivs[..i], n, 1, x, y, z)
    {
      var iv := Interval(starts[i], ends[i]);
      assert iv == ivs[i] && ivs[..i + 1] == ivs[..i] + [iv];
      SumAppend(ivs[..i], iv, XTerm(n, 1));
      SumAppend(ivs[..i], iv, YTerm(1));
      SumAppend(ivs[..i], iv, ZTerm(1));
      if iv.s == iv.e {
        x := x + iv.s;
        y := y + iv.e;
        z := z + 1;
      }
      Tally(iv, n, xs1, xs2, ys1, ys2, zs1, zs2, ivs[..i]);
      i := i + 1;
    }
    assert ivs[..count] == ivs;
    return xs1[..], xs2[..], ys1[..], ys2[..], zs1[..], zs2[..], x, y, z;
  }

  /** The variables of the recurrence, and what they are worth after step k. */
  datatype Recurrence = Recurrence(x: int, y: int, z: int, xx: int, yy: int, zz: int)

  ghost function Expected(ivs: seq<Interval>, n: int, k: int): Recurrence {
    Recurrence(Sum(ivs, XTerm(n, k)), Sum(ivs, YTerm(k)), Sum(ivs, ZTerm(k)),
               Sum(ivs, StartFrom(n - k + 1)), Sum(ivs, EndUpTo(k - 2)), Sum(ivs, GapUpTo(k - 2)))
  }

  /** One step of the recurrence, from window length k - 1 to k. */
  lemma RecurrenceStep(ivs: seq<Interval>, n: int, k: int, x: int, y: int, z: int, xx: int, yy: int, zz: int,
                       x1: seq<int>, x2: seq<int>, y1: seq<int>, y2: seq<int>, z1: seq<int>, z2: seq<int>)
    requires InTrace(ivs, n) && 2 <= k <= n <= TRACE_LENGTH
    requires Recurrence(x, y, z, xx, yy, zz) == Expected(ivs, n, k - 1)
    requires Histograms(ivs, n, x1, x2, y1, y2, z1, z2)
    ensures var xx', yy', zz' := xx + x1[n - (k - 1)], yy + y1[k - 2], zz + z1[k - 2];
            var x', y', z' := x - xx' + x2[k], y + yy' + y2[k], z + zz' + z2[k];
            Recurrence(x', y', z', xx', yy', zz') == Expected(ivs, n, k) && x' - y' + z' == TotalReuse(ivs, n, k)
  {
    HistogramEntries(ivs, n, k, x1, x2, y1, y2, z1, z2);
    var xx', yy', zz' := xx + x1[n - (k - 1)], yy + y1[k - 2], zz + z1[k - 2];
    TotalsStep(ivs, n, k, xx, yy, zz);
    AccumulatorsStep(ivs, n, k, x, y, z, xx', yy', zz');
    AccumulatorsGiveTotal(ivs, n, k);
  }

  lemma HistogramEntries(ivs: seq<Interval>, n: int, k: int, x1: seq<int>, x2: seq<int>,
                         y1: seq<int>, y2: seq<int>, z1: seq<int>, z2: seq<int>)
    requires Histograms(ivs, n, x1, x2, y1, y2, z1, z2) && 2 <= k <= n <= TRACE_LENGTH
    ensures x1[n - (k - 1)] == Sum(ivs, StartAt(n - (k - 1)))
    ensures y1[k - 2] == Sum(ivs, EndAt(k - 2)) && z1[k - 2] == Sum(ivs, GapAt(k - 2))
    ensures x2[k] == Sum(ivs, XNew(n, k)) && y2[k] == Sum(ivs, YNew(k)) && z2[k] == Sum(ivs, ZNew(k))
  {
  }

  /** The tables hold the reference values for windows of length 1 to k. */
  ghost predicate Tables(ivs: seq<Interval>, n: int, k: int, reuse: seq<real>, reserved: seq<int>) {
    && |reuse| == |reserved| == TRACE_LENGTH + 1 && 1 <= k <= n <= TRACE_LENGTH
    && (forall j :: 1 <= j <= k ==> reuse[j] == AverageReuse(ivs, n, j))
    && (forall j :: 1 <= j <= k ==> reserved[j] == Reserve(ivs, n, j))
  }

  /** The whole calculation, for a trace of n allocations. It costs one pass over the intervals and one over
      the window lengths, and tabulates the brute-force averages. Entries outside 1..n are left alone. */
  method CalculateReuse(starts: array<int>, ends: array<int>, count: nat, n: int,
                        reuse: array<real>, reserved: array<int>)
    requires count <= starts.Length && count <= ends.Length
    requires reuse.Length == reserved.Length == TRACE_LENGTH + 1
    requires reserved != starts && reserved != ends
    requires 1 <= n <= TRACE_LENGTH
    requires InTrace(Recorded(starts[..], ends[..], count), n)
    modifies reuse, reserved
    ensures Tables(Recorded(starts[..], ends[..], count), n, n, reuse[..], reserved[..])
    ensures forall k :: 1 <= k <= n ==>
              && reserved[k] >= 1
              && (forall j :: 2 <= j <= k ==> j as real - reuse[j] < (reserved[k] + 1) as real)
              && (reserved[k] == 1 || exists j :: 2 <= j <= k && reserved[k] as real <= j as real - reuse[j])
    ensures forall j :: 0 <= j <= TRACE_LENGTH && !(1 <= j <= n) ==>
              reuse[j] == old(reuse[j]) && reserved[j] == old(reserved[j])
  {
    ghost var ivs := Recorded(starts[..], ends[..], count);
    var x1, x2, y1, y2, z1, z2, x, y, z := FillHistograms(starts, ends, count, n);
    RunRecurrence(x1, x2, y1, y2, z1, z2, x, y, z, n, reuse, reserved, ivs);
    TablesMean(ivs, n, reuse[..], reserved[..]);
  }

  /** What the entries of the tables mean. */
  lemma TablesMean(ivs: seq<Interval>, n: int, reuse: seq<real>, reserved: seq<int>)
    requires Tables(ivs, n, n, reuse, reserved)
    ensures forall k :: 1 <= k <= n ==>
              && reserved[k] >= 1
              && (forall j :: 2 <= j <= k ==> j as real - reuse[j] < (reserved[k] + 1) as real)
              && (reserved[k] == 1 || exists j :: 2 <= j <= k && reserved[k] as real <= j as real - reuse[j])
  {
    var average := Averages(ivs, n);
    forall k | 1 <= k <= n
      ensures reserved[k] >= 1
      ensures forall j :: 2 <= j <= k ==> j as real - reuse[j] < (reserved[k] + 1) as real
      ensures reserved[k] == 1 || exists j :: 2 <= j <= k && reserved[k] as real <= j as real - reuse[j]
    {
      ReserveIs(ivs, n, k);
      forall j | 2 <= j <= k
        ensures reuse[j] == average(j)
      {
      }
      if reserved[k] != 1 {
        var j :| 2 <= j <= k && reserved[k] as real <= j as real - average(j);
        assert reserved[k] as real <= j as real - reuse[j];
      }
    }
  }

  /** The second loop: from windows of length one to windows of length n. */
  method RunRecurrence(x1: seq<int>, x2: seq<int>, y1: seq<int>, y2: seq<int>, z1: seq<int>, z2: seq<int>,
                       x0: int, y0: int, z0: int, n: int, reuse: array<real>, reserved: array<int>,
                       ghost ivs: seq<Interval>)
    requires reuse.Length == reserved.Length == TRACE_LENGTH + 1
    requires 1 <= n <= TRACE_LENGTH && InTrace(ivs, n)
    requires Histograms(ivs, n, x1, x2, y1, y2, z1, z2) && Accumulators(ivs, n, 1, x0, y0, z0)
    modifies reuse, reserved
    ensures Tables(ivs, n, n, reuse[..], reserved[..])
    ensures forall j :: 0 <= j <= TRACE_LENGTH && !(1 <= j <= n) ==>
              reuse[j] == old(reuse[j]) && reserved[j] == old(reserved[j])
  {
    var x, y, z := x0, y0, z0;
    AccumulatorsGiveTotal(ivs, n, 1);
    TabulateFirst(x - y + z, n, reuse, reserved, ivs);
    var everMaxReserved := 1;
    var xx, yy, zz := 0, 0, 0;
    TotalsStart(ivs, n);
    var k := 2;
    while k <= n
      invariant 2 <= k <= n + 1
      invariant Recurrence(x, y, z, xx, yy, zz) == Expected(ivs, n, k - 1)
      invariant everMaxReserved == Reserve(ivs, n, k - 1)
      invariant Tables(ivs, n, k - 1, reuse[..], reserved[..])
      invariant forall j :: 0 <= j <= TRACE_LENGTH && !(1 <= j < k) ==>
                  reuse[j] == old(reuse[j]) && reserved[j] == old(reserved[j])
    {
      x, y, z, xx, yy, zz := Accumulate(x1, x2, y1, y2, z1, z2, x, y, z, xx, yy, zz, n, k, ivs);
      everMaxReserved := TabulateOne(x - y + z, n, k, everMaxReserved, reuse, reserved, ivs);
      k := k + 1;
    }
  }

  /** The beginning of the loop body: the accumulators for windows of length k, and with them the brute-force total. */
  method Accumulate(x1: seq<int>, x2: seq<int>, y1: seq<int>, y2: seq<int>, z1: seq<int>, z2: seq<int>,
                    x0: int, y0: int, z0: int, xx0: int, yy0: int, zz0: int, n: int, k: int, ghost ivs: seq<Interval>)
    returns (x: int, y: int, z: int, xx: int, yy: int, zz: int)
    requires 2 <= k <= n <= TRACE_LENGTH && InTrace(ivs, n) && Histograms(ivs, n, x1, x2, y1, y2, z1, z2)
    requires Recurrence(x0, y0, z0, xx0, yy0, zz0) == Expected(ivs, n, k - 1)
    ensures Recurrence(x, y, z, xx, yy, zz) == Expected(ivs, n, k) && x - y + z == TotalReuse(ivs, n, k)
  {
    RecurrenceStep(ivs, n, k, x0, y0, z0, xx0, yy0, zz0, x1, x2, y1, y2, z1, z2);
    xx := xx0 + x1[n - (k - 1)];
    x := x0 - xx + x2[k];
    yy := yy0 + y1[k - 2];
    y := y0 + yy + y2[k];
    zz := zz0 + z1[k - 2];
    z := z0 + zz + z2[k];
  }

  /** The entries for windows of length one. */
  method TabulateFirst(total: int, n: int, reuse: array<real>, reserved: array<int>, ghost ivs: seq<Interval>)
    requires 1 <= n <= TRACE_LENGTH && reuse.Length == reserved.Length == TRACE_LENGTH + 1
    requires total == TotalReuse(ivs, n, 1)
    modifies reuse, reserved
    ensures Tables(ivs, n, 1, reuse[..], reserved[..])
    ensures forall j :: 0 <= j <= TRACE_LENGTH && j != 1 ==>
              reuse[j] == old(reuse[j]) && reserved[j] == old(reserved[j])
  {
    reuse[1] := total as real / n as real;
    reserved[1] := 1;
  }

  /** The end of the loop body: write the two table entries and keep the reserve from decreasing. */
  method TabulateOne(total: int, n: int, k: int, everMaxReserved: int, reuse: array<real>, reserved: array<int>,
                     ghost ivs: seq<Interval>)
    returns (newMax: int)
    requires 2 <= k <= n
    requires total == TotalReuse(ivs, n, k) && everMaxReserved == Reserve(ivs, n, k - 1)
    requires Tables(ivs, n, k - 1, reuse[..], reserved[..])
    modifies reuse, reserved
    ensures newMax == Reserve(ivs, n, k)
    ensures Tables(ivs, n, k, reuse[..], reserved[..])
    ensures forall j :: 0 <= j <= TRACE_LENGTH && j != k ==>
              reuse[j] == old(reuse[j]) && reserved[j] == old(reserved[j])
  {
    newMax := everMaxReserved;
    reuse[k] := total as real / (n - k + 1) as real;
    reserved[k] := Truncate(k as real - reuse[k]);
    if reserved[k] < newMax {
      reserved[k] := newMax;
    } else {
      newMax := reserved[k];
    }
  }
}
