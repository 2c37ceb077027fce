/** How the central lists start out for the size classes in use, and that room can be lost from there. */
module CentralInit {
  import opened Common
  import opened Powers
  import opened Alignments
  import opened SizeClasses
  import opened ClassCounts
  import opened Central
  import opened CentralLocks
  import opened CentralRuns
  import opened CentralLoss

  const MAX_TRANSFER_ENTRIES: nat := 64
  const TRANSFER_ENTRIES: nat := 16
  const MAX_TRANSFER_BYTES: nat := 1048576

  function Min(a: nat, b: nat): nat { if a <= b then a else b }
  function Max(a: nat, b: nat): nat { if a >= b then a else b }

  /** The bytes of one chain. */
  function ChainBytes(size: nat, transfer: nat): nat { size * NumMove(size, transfer) }

  /** The most chains the transfer cache of a class may hold: 1 MB worth, within limits. */
  function MaxCacheSize(cl: nat, size: nat, transfer: nat): nat
    requires cl > 0 ==> ChainBytes(size, transfer) > 0
  {
    if cl == 0 then MAX_TRANSFER_ENTRIES
    else Min(MAX_TRANSFER_ENTRIES, Max(1, MAX_TRANSFER_BYTES / ChainBytes(size, transfer)))
  }

  lemma QuotientTimes(x: nat, a: nat)
    requires a > 0
    ensures a * (x / a) <= x
  {
  }

  lemma ProductBounds(size: nat, num: nat, q: nat)
    requires 1 <= size <= MAX_SIZE && 1 <= num && (num <= 2 || num <= q) && size * q <= 65536
    ensures 0 < size * num <= 524288
  {
    MulOrder(size, 1, num);
    if num <= 2 {
      MulOrder(size, num, 2);
    } else {
      MulOrder(size, num, q);
    }
  }

  lemma NumMoveBounds(size: nat, transfer: nat, q: nat)
    requires size > 0 && transfer >= 1 && q == 65536 / size
    ensures 1 <= NumMove(size, transfer) && (NumMove(size, transfer) <= 2 || NumMove(size, transfer) <= q)
  {
  }

  /** The limit of one chain never comes into play, and the product of sizes fits in 32 bits. */
  lemma ChainFits(size: nat, transfer: nat)
    requires ALIGNMENT <= size <= MAX_SIZE && transfer >= 1
    ensures 0 < ChainBytes(size, transfer) <= 524288
    ensures 2 <= MAX_TRANSFER_BYTES / ChainBytes(size, transfer)
  {
    QuotientTimes(65536, size);
    NumMoveBounds(size, transfer, 65536 / size);
    ProductBounds(size, NumMove(size, transfer), 65536 / size);
    var bytes := ChainBytes(size, transfer);
    QuotientAtLeast(MAX_TRANSFER_BYTES, bytes, 2);
  }

  /** The classes as the central lists see them. */
  ghost predicate ForClasses(classes: seq<Class>, transfer: nat, c: Config) {
    && |c.batch| == |c.capacity| == |classes|
    && forall cl :: 1 <= cl < |classes| ==>
         c.batch[cl] == NumMove(classes[cl].size, transfer) && c.capacity[cl] == Objects(classes[cl])
  }

  /** The size of the transfer cache is what Init chose. */
  ghost predicate SizedFor(classes: seq<Class>, transfer: nat, cl: nat, l: List)
    requires cl < |classes|
  {
    && (cl > 0 ==> ChainBytes(classes[cl].size, transfer) > 0)
    && l.maxCacheSize == MaxCacheSize(cl, classes[cl].size, transfer)
    && l.cacheSize == Min(TRANSFER_ENTRIES, l.maxCacheSize)
  }

  /** Right after Init, with no thread active yet. */
  ghost predicate Started(classes: seq<Class>, transfer: nat, c: Config, s: State) {
    && Initial(c, s) && ForClasses(classes, transfer, c) && |s.lists| == |classes|
    && forall cl :: 0 <= cl < |s.lists| ==> SizedFor(classes, transfer, cl, s.lists[cl])
  }

  /** A span too small for one object would be all waste. */
  lemma AllWaste(psize: nat, size: nat)
    requires size > 0 && psize > 0 && !Wasteful(psize, size)
    ensures psize / size >= 1
  {
    if psize >= size {
      QuotientAtLeast(psize, size, 1);
    }
  }

  lemma SpanHoldsOne(c: Class, transfer: nat)
    requires ClassOk(c, transfer)
    ensures Objects(c) >= 1
  {
    assert SpanFits(c.pages * PAGE_SIZE, c.size, NumMove(c.size, transfer) / 4);
    AllWaste(c.pages * PAGE_SIZE, c.size);
  }

  function FreshList(cl: nat, size: nat, transfer: nat): List
    requires cl > 0 ==> ChainBytes(size, transfer) > 0
  {
    var max := MaxCacheSize(cl, size, transfer);
    List([], [], 0, 0, [], Min(TRANSFER_ENTRIES, max), max, None)
  }

  /** There is such a start for every table of classes and every number of threads. */
  lemma Starts(classes: seq<Class>, transfer: nat, threads: nat) returns (c: Config, s: State)
    requires SizeClasses.ClassesOk(classes, transfer) && transfer >= 1
    ensures Started(classes, transfer, c, s) && |s.threads| == threads
  {
    forall cl | 1 <= cl < |classes|
      ensures ChainBytes(classes[cl].size, transfer) > 0 && Objects(classes[cl]) >= 1
    {
      assert ClassOk(classes[cl], transfer);
      ChainFits(classes[cl].size, transfer);
      SpanHoldsOne(classes[cl], transfer);
    }
    c := Config(seq(|classes|, cl requires 0 <= cl < |classes| => NumMove(classes[cl].size, transfer)),
                seq(|classes|, cl requires 0 <= cl < |classes| => if cl == 0 then 1 else Objects(classes[cl])));
    var lists := seq(|classes|,
                     cl requires 0 <= cl < |classes| && (cl > 0 ==> ChainBytes(classes[cl].size, transfer) > 0) =>
                       FreshList(cl, classes[cl].size, transfer));
    s := State(lists, map[], {}, seq(threads, _ => Idle), seq(threads, _ => {}), {}, map[]);
  }

  /** Objects of 5120 bytes have a class of their own, whose transfer cache may grow by one. */
  lemma MayGrow(classes: seq<Class>, transfer: nat) returns (a: nat)
    requires transfer >= 40 && forall z: nat :: HasSize(classes, z) <==> Chosen(z, transfer)
    ensures 1 <= a < |classes| && classes[a].size == 5120
    ensures NumMove(5120, transfer) == 12 && MaxCacheSize(a, 5120, transfer) == 17
  {
    Widths();
    WidthInOctave(12, 512, 5120);
    Gains4096(transfer);
    assert Chosen(5120, transfer);
    assert HasSize(classes, 5120);
    a :| 1 <= a < |classes| && classes[a].size == 5120;
  }

  /** Whatever the number of objects to transfer, short of one that makes the size map give up, two threads can lose a
      unit of room: there is a run from every start that ends with no thread owed any and a total that is one less. */
  lemma RoomCanBeLost(classes: seq<Class>, transfer: nat, c: Config, s0: State)
    returns (states: seq<State>, moves: seq<Move>)
    requires SizeClasses.ClassesOk(classes, transfer) && transfer >= 40
    requires forall z: nat :: HasSize(classes, z) <==> Chosen(z, transfer)
    requires Started(classes, transfer, c, s0) && |s0.threads| >= 2
    ensures IsRun(c, states, moves) && states[0] == s0
    ensures TotalSize(states[|moves|].lists) == TotalSize(s0.lists) - 1 && Credits(states[|moves|].threads) == 0
  {
    var a := MayGrow(classes, transfer);
    assert SizedFor(classes, transfer, a, s0.lists[a]) && SizedFor(classes, transfer, 0, s0.lists[0]);
    states, moves := RoomIsLost(c, s0, a, 0);
  }
}
