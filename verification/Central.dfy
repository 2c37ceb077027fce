/** The central free lists and their transfer caches, as a machine whose steps are the stretches of code between
    points where a size-class lock is taken or dropped. Any number of threads interleave. */
module Central {
  import opened Common

  /** An object is a slot of the span it was carved from. */
  datatype Obj = Obj(span: int, index: int)

  datatype CSpan = CSpan(cl: nat, free: seq<Obj>, refcount: int)

  /** What a class's lock protects. Transfer slots are used as a stack. */
  datatype List = List(
    nonempty: seq<int>, empty: seq<int>, numSpans: int, counter: int,
    slots: seq<seq<Obj>>, cacheSize: int, maxCacheSize: int, lock: Option<nat>)

  /** What a thread does once a list of objects has been released to spans. */
  datatype Then =
    | Finish                                 // the list was its own chain: InsertRange is done
    | Resume(home: nat, chain: seq<Obj>)     // the list was evicted from another class: go home and use the room

  /** Where a thread is. Waiting states hold no lock. */
  datatype PC =
    | Idle
    | InsertWait(cl: nat, chain: seq<Obj>)
    | Evict(cl: nat, chain: seq<Obj>, force: bool)                     // holds cl
    | VictimWait(cl: nat, chain: seq<Obj>, force: bool, victim: nat)
    | HomeWait(cl: nat, chain: seq<Obj>, force: bool, won: bool)
    | Release(cl: nat, chain: seq<Obj>, then_: Then)                   // holds cl
    | Delete(cl: nat, chain: seq<Obj>, then_: Then, span: int)
    | RelockWait(cl: nat, chain: seq<Obj>, then_: Then)
    | RemoveWait(cl: nat, n: nat)
    | Fetch(cl: nat, n: nat, chain: seq<Obj>, again: bool)             // holds cl
    | PopulateOut(cl: nat, n: nat, chain: seq<Obj>)
    | PopulateWait(cl: nat, n: nat, chain: seq<Obj>, made: Option<int>)

  datatype Place =
    | InSpan(id: int)
    | InSlot(cl: nat, k: nat)
    | Transit(t: nat)      // the chain a thread is inserting or collecting
    | Victim(t: nat)       // a chain it evicted from another class
    | Cached(t: nat)       // its thread cache
    | App

  /** place records where each object is; no step depends on it. */
  datatype State = State(
    lists: seq<List>, spans: map<int, CSpan>, doomed: set<int>, threads: seq<PC>,
    caches: seq<set<Obj>>, app: set<Obj>, place: map<Obj, Place>)

  /** Per class: objects moved at a time, and objects per span. */
  datatype Config = Config(batch: seq<nat>, capacity: seq<nat>) {
    ghost predicate Valid() {
      |batch| == |capacity| && forall cl :: 0 <= cl < |capacity| ==> capacity[cl] >= 1
    }
  }

  /** The choices a step leaves open. */
  datatype Action =
    | Allocate(o: Obj)                            // the application takes an object from the thread cache
    | Free(o: Obj)                                // and gives it back
    | StartInsert(cl: nat, chain: seq<Obj>)       // the thread cache returns a chain
    | StartInsertOne(cl: nat, o: Obj)             // a thread without a cache frees an object
    | StartRemove(cl: nat, n: nat)                // the thread cache wants n objects
    | GiveUp                                      // the class to steal from has nothing to give, at a glance
    | StealFrom(victim: nat)
    | NoMemory                                    // the page heap could not deliver a span
    | NewSpan(id: int)
    | Advance                                     // everything that is determined

  function Holds(pc: PC): Option<nat> {
    match pc
    case Evict(cl, _, _) => Some(cl)
    case Release(cl, _, _) => Some(cl)
    case Fetch(cl, _, _, _) => Some(cl)
    case _ => None
  }

  function OwnChain(pc: PC): seq<Obj> {
    match pc
    case Idle => []
    case RemoveWait(_, _) => []
    case Release(_, chain, k) => if k.Finish? then chain else k.chain
    case Delete(_, chain, k, _) => if k.Finish? then chain else k.chain
    case RelockWait(_, chain, k) => if k.Finish? then chain else k.chain
    case _ => pc.chain
  }

  /** The class of the objects in the thread's own chain. */
  function OwnClass(pc: PC): nat {
    match pc
    case Idle => 0
    case Release(cl, _, k) => if k.Finish? then cl else k.home
    case Delete(cl, _, k, _) => if k.Finish? then cl else k.home
    case RelockWait(cl, _, k) => if k.Finish? then cl else k.home
    case _ => pc.cl
  }

  function VictimChain(pc: PC): seq<Obj> {
    if (pc.Release? || pc.Delete? || pc.RelockWait?) && pc.then_.Resume? then pc.chain else []
  }

  /** Objects in a place that keeps them in order. */
  function Chain(s: State, p: Place): seq<Obj> {
    match p
    case InSpan(id) => if id in s.spans then s.spans[id].free else []
    case InSlot(cl, k) => if cl < |s.lists| && k < |s.lists[cl].slots| then s.lists[cl].slots[k] else []
    case Transit(t) => if t < |s.threads| then OwnChain(s.threads[t]) else []
    case Victim(t) => if t < |s.threads| then VictimChain(s.threads[t]) else []
    case _ => []
  }

  predicate In(s: State, p: Place, o: Obj) {
    match p
    case Cached(t) => t < |s.caches| && o in s.caches[t]
    case App => o in s.app
    case _ => o in Chain(s, p)
  }

  // ----- steps

  function WithLock(s: State, cl: nat, lock: Option<nat>): State
    requires cl < |s.lists|
  {
    s.(lists := s.lists[cl := s.lists[cl].(lock := lock)])
  }

  function At(s: State, t: nat, pc: PC): State
    requires t < |s.threads|
  {
    s.(threads := s.threads[t := pc])
  }

  function Moved(place: map<Obj, Place>, chain: seq<Obj>, to: Place): map<Obj, Place> {
    map o | o in place :: if o in chain then to else place[o]
  }

  predicate Unlocked(s: State, cl: nat) { cl < |s.lists| && s.lists[cl].lock.None? }

  /** The chain goes into a new transfer slot. */
  function PushSlot(s: State, t: nat, cl: nat, chain: seq<Obj>): State
    requires t < |s.threads| && cl < |s.lists|
  {
    var l := s.lists[cl];
    At(s, t, Idle).(lists := s.lists[cl := l.(slots := l.slots + [chain], lock := None)],
                    place := Moved(s.place, chain, InSlot(cl, |l.slots|)))
  }

  /** The end of RemoveRange: the lock is dropped and the chain goes to the thread cache. */
  function Deliver(s: State, t: nat, cl: nat, chain: seq<Obj>): State
    requires t < |s.threads| && cl < |s.lists| && t < |s.caches|
  {
    At(WithLock(s, cl, None), t, Idle).(
      caches := s.caches[t := s.caches[t] + set o | o in chain],
      place := Moved(s.place, chain, Cached(t)))
  }

  /** InsertRange takes its lock: use a slot, look for room elsewhere, or release the objects to spans. */
  function InsertLocked(c: Config, s: State, t: nat): State
    requires t < |s.threads| && s.threads[t].InsertWait? && Unlocked(s, s.threads[t].cl) && s.threads[t].cl < |c.batch|
  {
    var InsertWait(cl, chain) := s.threads[t];
    var l := s.lists[cl];
    if |chain| == c.batch[cl] && |l.slots| < l.cacheSize then PushSlot(s, t, cl, chain)
    else
      At(WithLock(s, cl, Some(t)), t,
         if |chain| == c.batch[cl] && l.cacheSize != l.maxCacheSize then Evict(cl, chain, false)
         else Release(cl, chain, Finish))
  }

  /** Nothing to steal: insist the second time, then give up. */
  function EvictFailed(cl: nat, chain: seq<Obj>, force: bool): PC {
    if force then Release(cl, chain, Finish) else Evict(cl, chain, true)
  }

  /** ShrinkCache has the victim's lock. */
  function VictimLocked(s: State, t: nat): State
    requires t < |s.threads| && s.threads[t].VictimWait? && Unlocked(s, s.threads[t].victim)
    requires |s.lists[s.threads[t].victim].slots| <= s.lists[s.threads[t].victim].cacheSize
  {
    var VictimWait(cl, chain, force, v) := s.threads[t];
    var l := s.lists[v];
    if l.cacheSize == 0 || (|l.slots| == l.cacheSize && !force) then
      At(s, t, HomeWait(cl, chain, force, false))
    else if |l.slots| == l.cacheSize then
      var top := |l.slots| - 1;
      At(s, t, Release(v, l.slots[top], Resume(cl, chain))).(
        lists := s.lists[v := l.(cacheSize := l.cacheSize - 1, slots := l.slots[..top], lock := Some(t))],
        place := Moved(s.place, l.slots[top], Victim(t)))
    else
      At(s, t, HomeWait(cl, chain, force, true)).(lists := s.lists[v := l.(cacheSize := l.cacheSize - 1)])
  }

  /** Back home with the own lock: the world may have changed meanwhile. */
  function HomeLocked(s: State, t: nat): State
    requires t < |s.threads| && s.threads[t].HomeWait? && Unlocked(s, s.threads[t].cl)
  {
    var HomeWait(cl, chain, force, won) := s.threads[t];
    var l := s.lists[cl];
    if won && l.cacheSize < l.maxCacheSize then
      PushSlot(s.(lists := s.lists[cl := l.(cacheSize := l.cacheSize + 1)]), t, cl, chain)
    else
      At(WithLock(s, cl, Some(t)), t, if won then Release(cl, chain, Finish) else EvictFailed(cl, chain, force))
  }

  /** The end of ReleaseListToSpans. */
  function ReleaseDone(s: State, t: nat): State
    requires t < |s.threads| && s.threads[t].Release? && s.threads[t].cl < |s.lists|
  {
    var Release(cl, _, k) := s.threads[t];
    At(WithLock(s, cl, None), t, if k.Finish? then Idle else HomeWait(k.home, k.chain, true, true))
  }

  /** ReleaseToSpans for the first object of the list. The last object of a span to come back dooms the span, and
      the lock is dropped while the page heap takes it. */
  function ReleaseOne(c: Config, s: State, t: nat): State
    requires t < |s.threads| && s.threads[t].Release? && s.threads[t].cl < |s.lists|
    requires s.threads[t].chain != [] && s.threads[t].chain[0].span in s.spans
    requires s.spans[s.threads[t].chain[0].span].cl < |c.capacity|
  {
    var Release(cl, chain, k) := s.threads[t];
    var l, o, id := s.lists[cl], chain[0], chain[0].span;
    var sp := s.spans[id];
    var l1 := if sp.free == [] then l.(empty := Unlink(l.empty, id), nonempty := [id] + l.nonempty) else l;
    if sp.refcount == 1 then
      At(s, t, Delete(cl, chain[1..], k, id)).(
        lists := s.lists[cl := l1.(nonempty := Unlink(l1.nonempty, id), numSpans := l.numSpans - 1,
                                   counter := l.counter + 1 - c.capacity[sp.cl], lock := None)],
        spans := s.spans - {id}, doomed := s.doomed + {id},
        place := map x | x in s.place && x.span != id :: s.place[x])
    else
      At(s, t, Release(cl, chain[1..], k)).(
        lists := s.lists[cl := l1.(counter := l.counter + 1)],
        spans := s.spans[id := sp.(free := [o] + sp.free, refcount := sp.refcount - 1)],
        place := s.place[o := InSpan(id)])
  }

  /** RemoveRange takes its lock. */
  function RemoveLocked(c: Config, s: State, t: nat): State
    requires t < |s.threads| && t < |s.caches| && s.threads[t].RemoveWait? && Unlocked(s, s.threads[t].cl)
    requires s.threads[t].cl < |c.batch|
  {
    var RemoveWait(cl, n) := s.threads[t];
    var l := s.lists[cl];
    if n == c.batch[cl] && |l.slots| > 0 then
      var top := |l.slots| - 1;
      Deliver(s.(lists := s.lists[cl := l.(slots := l.slots[..top])]), t, cl, l.slots[top])
    else
      At(WithLock(s, cl, Some(t)), t, Fetch(cl, n, [], false))
  }

  /** FetchFromOneSpansSafe finds no span with free objects: populate, unless that was just done. */
  function FetchNone(s: State, t: nat): State
    requires t < |s.threads| && t < |s.caches| && s.threads[t].Fetch? && s.threads[t].cl < |s.lists|
  {
    var Fetch(cl, n, chain, again) := s.threads[t];
    if again then Deliver(s, t, cl, chain)
    else At(WithLock(s, cl, None), t, PopulateOut(cl, n, chain))
  }

  predicate CanFetch(s: State, t: nat) {
    && t < |s.threads| && t < |s.caches| && s.threads[t].Fetch? && s.threads[t].cl < |s.lists|
    && s.lists[s.threads[t].cl].nonempty != [] && s.lists[s.threads[t].cl].nonempty[0] in s.spans
    && |s.threads[t].chain| < s.threads[t].n
  }

  /** How many objects FetchFromOneSpans takes from the first span. */
  function Portion(s: State, t: nat): (k: nat)
    requires CanFetch(s, t)
    ensures k <= |s.spans[s.lists[s.threads[t].cl].nonempty[0]].free| && k <= s.threads[t].n - |s.threads[t].chain|
  {
    var want, have := s.threads[t].n - |s.threads[t].chain|, |s.spans[s.lists[s.threads[t].cl].nonempty[0]].free|;
    if want < have then want else have
  }

  /** FetchFromOneSpans takes k objects from the first span and puts them in front of the chain. */
  function Collect(s: State, t: nat): State
    requires CanFetch(s, t)
  {
    var Fetch(cl, n, chain, again) := s.threads[t];
    var l, k := s.lists[cl], Portion(s, t);
    var id := l.nonempty[0];
    var sp := s.spans[id];
    var l1 := if k == |sp.free| then l.(nonempty := l.nonempty[1..], empty := [id] + l.empty) else l;
    At(s, t, Fetch(cl, n, sp.free[..k] + chain, false)).(
      lists := s.lists[cl := l1.(counter := l.counter - k)],
      spans := s.spans[id := sp.(free := sp.free[k..], refcount := sp.refcount + k)],
      place := Moved(s.place, sp.free[..k], Transit(t)))
  }

  /** The loop of RemoveRange goes on until n objects are together. */
  function FetchOne(s: State, t: nat): State
    requires CanFetch(s, t)
  {
    var s1, Fetch(cl, n, _, _) := Collect(s, t), s.threads[t];
    var chain := s1.threads[t].chain;
    if |chain| < n then s1 else Deliver(s1, t, cl, chain)
  }

  /** The objects carved from a new span. */
  function Carve(id: int, capacity: nat): (objs: seq<Obj>)
    ensures |objs| == capacity && forall i :: 0 <= i < capacity ==> objs[i] == Obj(id, i)
  {
    seq(capacity, i => Obj(id, i))
  }

  /** Populate outside the lock: the page heap delivers a span and it is carved up. */
  function Populated(c: Config, s: State, t: nat, id: int): State
    requires t < |s.threads| && s.threads[t].PopulateOut? && s.threads[t].cl < |c.capacity|
  {
    var PopulateOut(cl, n, chain) := s.threads[t];
    var objs := Carve(id, c.capacity[cl]);
    At(s, t, PopulateWait(cl, n, chain, Some(id))).(
      spans := s.spans[id := CSpan(cl, objs, 0)],
      place := s.place + map o | o in objs :: InSpan(id))
  }

  /** Populate takes the lock again and enters the span, if there is one. */
  function PopulateLocked(s: State, t: nat): State
    requires t < |s.threads| && s.threads[t].PopulateWait? && Unlocked(s, s.threads[t].cl)
    requires s.threads[t].made.Some? ==> s.threads[t].made.value in s.spans
  {
    var PopulateWait(cl, n, chain, made) := s.threads[t];
    var l := s.lists[cl].(lock := Some(t));
    var l1 := if made.None? then l
              else l.(nonempty := [made.value] + l.nonempty, numSpans := l.numSpans + 1,
                      counter := l.counter + |s.spans[made.value].free|);
    At(s, t, Fetch(cl, n, chain, true)).(lists := s.lists[cl := l1])
  }

  /** May thread t take a step with this choice? Locks are respected; clients only pass on objects they hold. */
  ghost predicate Enabled(c: Config, s: State, t: nat, a: Action) {
    && t < |s.threads| && t < |s.caches| && |c.batch| == |c.capacity| == |s.lists|
    && var pc := s.threads[t];
    match a
    case Allocate(o) => pc.Idle? && o in s.caches[t]
    case Free(o) => pc.Idle? && o in s.app
    case StartInsert(cl, chain) =>
      && pc.Idle? && cl < |s.lists| && Distinct(chain)
      && forall o :: o in chain ==> o in s.caches[t] && o.span in s.spans && s.spans[o.span].cl == cl
    case StartInsertOne(cl, o) =>
      pc.Idle? && cl < |s.lists| && o in s.app && o.span in s.spans && s.spans[o.span].cl == cl
    case StartRemove(cl, n) => pc.Idle? && cl < |s.lists| && n >= 1
    case GiveUp => pc.Evict?
    case StealFrom(v) => pc.Evict? && v < |s.lists| && v != pc.cl && pc.cl < |s.lists|
    case NoMemory => pc.PopulateOut?
    case NewSpan(id) => pc.PopulateOut? && pc.cl < |s.lists| && id !in s.spans && id !in s.doomed
    case Advance =>
      match pc
      case InsertWait(cl, _) => Unlocked(s, cl)
      case VictimWait(_, _, _, v) => Unlocked(s, v) && |s.lists[v].slots| <= s.lists[v].cacheSize
      case HomeWait(cl, _, _, _) => Unlocked(s, cl)
      case Release(cl, chain, _) =>
        && cl < |s.lists|
        && (chain != [] ==> chain[0].span in s.spans && s.spans[chain[0].span].cl < |c.capacity|)
      case Delete(_, _, _, _) => true
      case RelockWait(cl, _, _) => Unlocked(s, cl)
      case RemoveWait(cl, _) => Unlocked(s, cl)
      case Fetch(cl, n, chain, _) =>
        && cl < |s.lists|
        && (s.lists[cl].nonempty != [] ==> s.lists[cl].nonempty[0] in s.spans && |chain| < n)
      case PopulateWait(cl, _, _, made) => Unlocked(s, cl) && (made.Some? ==> made.value in s.spans)
      case _ => false
  }

  ghost function Step(c: Config, s: State, t: nat, a: Action): State
    requires Enabled(c, s, t, a)
  {
    var pc := s.threads[t];
    match a
    case Allocate(o) =>
      s.(caches := s.caches[t := s.caches[t] - {o}], app := s.app + {o}, place := Moved(s.place, [o], App))
    case Free(o) =>
      s.(caches := s.caches[t := s.caches[t] + {o}], app := s.app - {o}, place := Moved(s.place, [o], Cached(t)))
    case StartInsert(cl, chain) =>
      At(s, t, InsertWait(cl, chain)).(caches := s.caches[t := s.caches[t] - set o | o in chain],
                                       place := Moved(s.place, chain, Transit(t)))
    case StartInsertOne(cl, o) =>
      At(s, t, InsertWait(cl, [o])).(app := s.app - {o}, place := Moved(s.place, [o], Transit(t)))
    case StartRemove(cl, n) => At(s, t, RemoveWait(cl, n))
    case GiveUp => At(s, t, EvictFailed(pc.cl, pc.chain, pc.force))
    case StealFrom(v) => At(WithLock(s, pc.cl, None), t, VictimWait(pc.cl, pc.chain, pc.force, v))
    case NoMemory => At(s, t, PopulateWait(pc.cl, pc.n, pc.chain, None))
    case NewSpan(id) => Populated(c, s, t, id)
    case Advance =>
      match pc
      case InsertWait(_, _) => InsertLocked(c, s, t)
      case VictimWait(_, _, _, _) => VictimLocked(s, t)
      case HomeWait(_, _, _, _) => HomeLocked(s, t)
      case Release(_, chain, _) => if chain == [] then ReleaseDone(s, t) else ReleaseOne(c, s, t)
      case Delete(cl, chain, k, id) => At(s, t, RelockWait(cl, chain, k)).(doomed := s.doomed - {id})
      case RelockWait(cl, chain, k) => At(WithLock(s, cl, Some(t)), t, Release(cl, chain, k))
      case RemoveWait(_, _) => RemoveLocked(c, s, t)
      case Fetch(cl, _, _, _) => if s.lists[cl].nonempty == [] then FetchNone(s, t) else FetchOne(s, t)
      case PopulateWait(_, _, _, _) => PopulateLocked(s, t)
  }
}
