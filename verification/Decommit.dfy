/** The books of the page heap in aggressive decommit mode, where a merge also joins spans of different locations and
    then decommits the whole. Whether unmapped and committed bytes still make up all the memory depends on who calls:
    the exact condition is stated, with the case in which the code loses bytes. */
module Decommit {
  import opened Common
  import opened Spans
  import opened FreeLists

  /** A free neighbour of the span that is merged. */
  datatype Neighbour = Neighbour(length: nat, location: Location)

  predicate MayMerge(aggressive: bool, l: Location, other: Neighbour) {
    if aggressive then other.location != InUse else l == other.location
  }

  /** The neighbours that are merged. */
  function Merged(aggressive: bool, l: Location, prev: Option<Neighbour>, next: Option<Neighbour>): seq<Neighbour> {
    (if prev.Some? && MayMerge(aggressive, l, prev.value) then [prev.value] else [])
    + (if next.Some? && MayMerge(aggressive, l, next.value) then [next.value] else [])
  }

  /** The pages of neighbours at a location. */
  function NeighbourPages(ns: seq<Neighbour>, l: Location): nat {
    if ns == [] then 0 else (if ns[0].location == l then ns[0].length else 0) + NeighbourPages(ns[1..], l)
  }

  /** RemoveFromFreeList, for each neighbour that is merged. */
  function Withdraw(st: Stats, ns: seq<Neighbour>): Stats
    decreases ns
  {
    if ns == [] then st else Withdraw(Credit(st, ns[0].location, 0 - ns[0].length), ns[1..])
  }

  /** MergeIntoFreeList for a span of n pages: the new books and the location of the result. */
  function Merge(aggressive: bool, st: Stats, n: nat, l: Location, ns: seq<Neighbour>, decommits: bool)
    : (Stats, Location)
  {
    var returned := NeighbourPages(ns, Returned);
    var total := n + NeighbourPages(ns, Normal) + returned;
    var st1 := Withdraw(st, ns);
    if aggressive && decommits then
      (Credit(st1.(committed := st1.committed - PAGE_SIZE * total + PAGE_SIZE * returned), Returned, total), Returned)
    else
      (Credit(st1, l, total), l)
  }

  predicate AddsUp(st: Stats) {
    st.unmapped + st.committed == st.system
  }

  /** The books while a span that is on no list is merged: only a span that was given back already is missing. */
  predicate AddsUpWithout(st: Stats, n: nat, l: Location) {
    st.unmapped + st.committed + (if l == Returned then PAGE_SIZE * n else 0) == st.system
  }

  lemma {:induction false} WithdrawBooks(st: Stats, ns: seq<Neighbour>)
    ensures var st1 := Withdraw(st, ns);
            && st1.unmapped == st.unmapped - PAGE_SIZE * NeighbourPages(ns, Returned)
            && st1.free == st.free - PAGE_SIZE * NeighbourPages(ns, Normal)
            && st1.committed == st.committed && st1.system == st.system
    decreases ns
  {
    if ns == [] {
    } else {
      WithdrawBooks(Credit(st, ns[0].location, 0 - ns[0].length), ns[1..]);
    }
  }

  /** The pages at a location that a merge takes off the lists with a neighbour: all of a free one with the mode on, and
      otherwise all of one at the same location. */
  ghost function Gone(aggressive: bool, l: Location, x: Option<Neighbour>, at: Location): nat {
    if x.Some? && x.value.location == at && at != InUse && (aggressive || at == l) then x.value.length else 0
  }

  /** A merge lists the pages of the span and of the neighbours merged with it, all at one location, and no others. */
  lemma MergeMovesPages(aggressive: bool, st: Stats, n: nat, l: Location, prev: Option<Neighbour>,
                        next: Option<Neighbour>, decommits: bool)
    requires l != InUse
    ensures var (st', l') := Merge(aggressive, st, n, l, Merged(aggressive, l, prev, next), decommits);
            && l' == (if aggressive && decommits then Returned else l)
            && st'.system == st.system && st'.free + st'.unmapped == st.free + st.unmapped + PAGE_SIZE * n
            && (l' == Returned ==>
                  st'.free == st.free
                    - PAGE_SIZE * (Gone(aggressive, l, prev, Normal) + Gone(aggressive, l, next, Normal)))
            && (l' == Normal ==>
                  st'.unmapped == st.unmapped
                    - PAGE_SIZE * (Gone(aggressive, l, prev, Returned) + Gone(aggressive, l, next, Returned)))
  {
    var ns := Merged(aggressive, l, prev, next);
    WithdrawBooks(st, ns);
    PagesGone(aggressive, l, prev, next, Normal);
    PagesGone(aggressive, l, prev, next, Returned);
  }

  lemma PagesGone(aggressive: bool, l: Location, prev: Option<Neighbour>, next: Option<Neighbour>, at: Location)
    requires at != InUse
    ensures NeighbourPages(Merged(aggressive, l, prev, next), at) ==
            Gone(aggressive, l, prev, at) + Gone(aggressive, l, next, at)
  {
    var ns := Merged(aggressive, l, prev, next);
    if |ns| == 2 {
      assert ns[1..] == [next.value] && [next.value][1..] == [];
      assert NeighbourPages([next.value], at) == if next.value.location == at then next.value.length else 0;
    } else if |ns| == 1 {
      assert ns[1..] == [];
    }
  }

  /** Exactly when a merge keeps the books: a committed span that the system takes back, or a refusal by the system that
      comes with no neighbour at the other location. In particular a span that was decommitted before the merge is
      decommitted twice when the mode is on and the system agrees again. */
  lemma MergeKeepsBooksIff(aggressive: bool, st: Stats, n: nat, l: Location, prev: Option<Neighbour>,
                           next: Option<Neighbour>, decommits: bool)
    requires n >= 1 && l != InUse && AddsUpWithout(st, n, l)
    ensures var ns := Merged(aggressive, l, prev, next);
            AddsUp(Merge(aggressive, st, n, l, ns, decommits).0) <==>
            if aggressive && decommits then l == Normal
            else NeighbourPages(ns, if l == Normal then Returned else Normal) == 0
  {
    var ns := Merged(aggressive, l, prev, next);
    WithdrawBooks(st, ns);
  }

  /** With the mode off the books are always kept. */
  lemma PlainMergeKeepsBooks(st: Stats, n: nat, l: Location, prev: Option<Neighbour>, next: Option<Neighbour>,
                             decommits: bool)
    requires n >= 1 && l != InUse && AddsUpWithout(st, n, l)
    ensures AddsUp(Merge(false, st, n, l, Merged(false, l, prev, next), decommits).0)
  {
    MergeKeepsBooksIff(false, st, n, l, prev, next, decommits);
    NoneElsewhere(Merged(false, l, prev, next), l, if l == Normal then Returned else Normal);
  }

  lemma {:induction false} NoneElsewhere(ns: seq<Neighbour>, l: Location, other: Location)
    requires l != other && forall i :: 0 <= i < |ns| ==> ns[i].location == l
    ensures NeighbourPages(ns, other) == 0
  {
    if ns == [] {
    } else {
      NoneElsewhere(ns[1..], l, other);
    }
  }

  /** ReleaseLastNormalSpan with the mode on: the bytes of the span are subtracted from the committed bytes twice. */
  lemma ReleaseCountsTwice(st: Stats, n: nat, prev: Option<Neighbour>, next: Option<Neighbour>)
    requires n >= 1 && AddsUp(st)
    ensures var decommitted := Credit(st.(committed := st.committed - PAGE_SIZE * n), Normal, 0 - n);
            var ns := Merged(true, Returned, prev, next);
            var after := Merge(true, decommitted, n, Returned, ns, true).0;
            after.unmapped + after.committed == after.system - PAGE_SIZE * n
  {
    var decommitted := Credit(st.(committed := st.committed - PAGE_SIZE * n), Normal, 0 - n);
    WithdrawBooks(decommitted, Merged(true, Returned, prev, next));
  }

  // ----- the mode on for a whole run, with a system that takes everything back

  datatype Event =
    | Free(n: nat, prev: Option<Neighbour>, next: Option<Neighbour>)   // Delete, also of a new region
    | Take(length: nat, n: nat, location: Location)                    // Carve
    | Obtain(n: nat)                                                   // the books of GrowHeap

  /** The event can happen: what it takes off the lists is on them. */
  predicate Possible(st: Stats, e: Event) {
    match e
    case Free(n, prev, next) =>
      var ns := Merged(true, Normal, prev, next);
      && n >= 1 && PAGE_SIZE * NeighbourPages(ns, Normal) <= st.free
      && PAGE_SIZE * NeighbourPages(ns, Returned) <= st.unmapped
    case Take(length, n, l) =>
      && 1 <= n <= length && l != InUse
      && PAGE_SIZE * length <= if l == Normal then st.free else st.unmapped
    case Obtain(n) => n >= 1
  }

  function After(st: Stats, e: Event): Stats {
    match e
    case Free(n, prev, next) => Merge(true, st, n, Normal, Merged(true, Normal, prev, next), true).0
    case Take(length, n, l) =>
      var rest := Credit(Credit(st, l, 0 - length), l, length - n);
      if l == Returned then rest.(committed := rest.committed + PAGE_SIZE * n) else rest
    case Obtain(n) => st.(system := st.system + PAGE_SIZE * n, committed := st.committed + PAGE_SIZE * n)
  }

  ghost predicate IsRun(st: Stats, run: seq<Event>, end: Stats)
    decreases run
  {
    if run == [] then end == st else Possible(st, run[0]) && IsRun(After(st, run[0]), run[1..], end)
  }

  /** With the mode on from the start and a system that never refuses, the books add up in every state, and nothing is
      ever on a normal list, so that the release that would count twice never happens. */
  lemma {:induction false} AggressiveRunKeepsBooks(st: Stats, run: seq<Event>, end: Stats)
    requires AddsUp(st) && st.free == 0 && IsRun(st, run, end)
    ensures AddsUp(end) && end.free == 0
    decreases run
  {
    if run == [] {
    } else {
      EventKeepsBooks(st, run[0]);
      AggressiveRunKeepsBooks(After(st, run[0]), run[1..], end);
    }
  }

  lemma EventKeepsBooks(st: Stats, e: Event)
    requires AddsUp(st) && st.free == 0 && Possible(st, e)
    ensures AddsUp(After(st, e)) && After(st, e).free == 0
  {
    if e.Free? {
      var ns := Merged(true, Normal, e.prev, e.next);
      MergeKeepsBooksIff(true, st, e.n, Normal, e.prev, e.next, true);
      WithdrawBooks(st, ns);
    }
  }
}
