/** The size classes: how many pages a class takes at a time, and which sizes become classes. */
module SizeClasses {
  import opened Common
  import opened Powers
  import opened Alignments

  const MAX_SMALL_SIZE: nat := 1024

  // ----- pages per class

  /** Objects moved at a time between the caches: about 64 KB worth, at least two, at most the configured number. */
  function NumMove(size: nat, transfer: nat): nat {
    if size == 0 then 0
    else
      var num := if 65536 / size < 2 then 2 else 65536 / size;
      if num > transfer then transfer else num
  }

  /** That is, as many as fit in 64 KB, but at least two, and never more than the configured number. */
  lemma NumMoveIs(size: nat, transfer: nat)
    requires size > 0
    ensures var n := NumMove(size, transfer);
            && n <= transfer && (n == transfer || n >= 2)
            && (n <= 2 || n * size <= 65536)
            && (n == transfer || (n + 1) * size > 65536)
  {
    var q := 65536 / size;
    assert q * size <= 65536 < (q + 1) * size;
    MulOrder(size, NumMove(size, transfer), q);
    MulOrder(size, q + 1, NumMove(size, transfer) + 1);
  }

  /** A span of this many bytes loses at most an eighth at its end and holds enough objects. */
  predicate SpanFits(psize: nat, size: nat, blocks: nat)
    requires size > 0
  {
    !Wasteful(psize, size) && !TooFew(psize, size, blocks)
  }

  predicate Wasteful(psize: nat, size: nat)
    requires size > 0
  {
    psize % size > psize / 8
  }

  predicate TooFew(psize: nat, size: nat, blocks: nat)
    requires size > 0
  {
    psize / size < blocks
  }

  /** The smallest whole number of pages that will do. */
  ghost predicate IsSpanSize(psize: nat, size: nat, blocks: nat)
    requires size > 0
  {
    && psize > 0 && psize % PAGE_SIZE == 0 && SpanFits(psize, size, blocks)
    && NoneFits(psize - 1, size, blocks)
  }

  ghost predicate NoneFits(top: int, size: nat, blocks: nat)
    requires size > 0
  {
    forall q: nat {:trigger SpanFits(q, size, blocks)} :: 0 < q <= top && q % PAGE_SIZE == 0 ==>
      !SpanFits(q, size, blocks)
  }

  /** Eight objects are never wasteful, and enough bytes are enough objects. */
  lemma SearchEnds(psize: nat, size: nat, blocks: nat)
    requires size > 0
    ensures Wasteful(psize, size) ==> psize < 8 * size + 8
    ensures TooFew(psize, size, blocks) ==> psize < blocks * size
  {
    if TooFew(psize, size, blocks) {
      MulOrder(size, psize / size + 1, blocks);
    }
  }

  /** Moving on by one page. */
  lemma PassSize(psize: nat, size: nat, blocks: nat)
    requires size > 0 && psize % PAGE_SIZE == 0 && NoneFits(psize - 1, size, blocks)
    requires psize == 0 || !SpanFits(psize, size, blocks)
    ensures NoneFits(psize + PAGE_SIZE - 1, size, blocks)
  {
    forall q: nat | 0 < q <= psize + PAGE_SIZE - 1 && q % PAGE_SIZE == 0
      ensures !SpanFits(q, size, blocks)
    {
      WithinPage(psize, q);
    }
  }

  lemma WithinPage(p: nat, q: nat)
    requires p % PAGE_SIZE == 0 && q % PAGE_SIZE == 0 && q < p + PAGE_SIZE
    ensures q <= p - 1 || q == p
  {
  }

  /** The inner loop of the search: on to the next span size that is not wasteful. */
  method SkipWasteful(start: nat, size: nat, ghost blocks: nat) returns (psize: nat)
    requires size > 0 && start % PAGE_SIZE == 0 && NoneFits(start - 1, size, blocks)
    ensures psize >= start && psize % PAGE_SIZE == 0 && !Wasteful(psize, size) && NoneFits(psize - 1, size, blocks)
  {
    psize := start;
    while Wasteful(psize, size)
      invariant psize >= start && psize % PAGE_SIZE == 0 && NoneFits(psize - 1, size, blocks)
      decreases 8 * size + 8 - psize
    {
      SearchEnds(psize, size, blocks);
      PassSize(psize, size, blocks);
      psize := psize + PAGE_SIZE;
    }
  }

  /** The search for the number of pages ends, with the smallest number that will do. */
  method SpanSize(size: nat, blocks: nat) returns (psize: nat)
    requires size > 0
    ensures IsSpanSize(psize, size, blocks)
  {
    ghost var bound := blocks * size;
    PassSize(0, size, blocks);
    psize := SkipWasteful(PAGE_SIZE, size, blocks);
    while TooFew(psize, size, blocks)
      invariant psize > 0 && psize % PAGE_SIZE == 0 && !Wasteful(psize, size) && NoneFits(psize - 1, size, blocks)
      decreases bound - psize
    {
      SearchEnds(psize, size, blocks);
      PassSize(psize, size, blocks);
      psize := SkipWasteful(psize + PAGE_SIZE, size, blocks);
    }
  }

  // ----- the number of pages as a function

  ghost function FirstFit(size: nat, blocks: nat, k: nat, bound: nat): nat
    requires size > 0 && bound == blocks * size + 8 * size + 8
    decreases bound - k * PAGE_SIZE
  {
    if SpanFits(k * PAGE_SIZE, size, blocks) then k
    else
      SearchEnds(k * PAGE_SIZE, size, blocks);
      FirstFit(size, blocks, k + 1, bound)
  }

  /** The pages of a span for objects of the size, at least so many. */
  ghost function SpanPages(size: nat, blocks: nat): nat
    requires size > 0
  {
    FirstFit(size, blocks, 1, blocks * size + 8 * size + 8)
  }

  lemma {:induction false} FirstFitIsSpanSize(size: nat, blocks: nat, k: nat, bound: nat)
    requires size > 0 && bound == blocks * size + 8 * size + 8 && k >= 1
    requires NoneFits(k * PAGE_SIZE - 1, size, blocks)
    ensures IsSpanSize(FirstFit(size, blocks, k, bound) * PAGE_SIZE, size, blocks)
    decreases bound - k * PAGE_SIZE
  {
    if SpanFits(k * PAGE_SIZE, size, blocks) {
    } else {
      SearchEnds(k * PAGE_SIZE, size, blocks);
      PassSize(k * PAGE_SIZE, size, blocks);
      FirstFitIsSpanSize(size, blocks, k + 1, bound);
    }
  }

  /** There is exactly one span size. */
  lemma SpanSizeIs(psize: nat, size: nat, blocks: nat)
    requires size > 0 && IsSpanSize(psize, size, blocks)
    ensures psize == SpanPages(size, blocks) * PAGE_SIZE
  {
    PassSize(0, size, blocks);
    FirstFitIsSpanSize(size, blocks, 1, blocks * size + 8 * size + 8);
    var other := SpanPages(size, blocks) * PAGE_SIZE;
    assert SpanFits(psize, size, blocks) && SpanFits(other, size, blocks);
  }

  // ----- choosing the classes

  datatype Class = Class(size: nat, pages: nat)

  function Objects(c: Class): nat {
    if c.size == 0 then 0 else c.pages * PAGE_SIZE / c.size
  }

  /** A class as the initialization makes it: its size is a multiple of its own alignment and its span is as small as it
      can be. */
  ghost predicate ClassOk(c: Class, transfer: nat) {
    && ALIGNMENT <= c.size <= MAX_SIZE && Aligned(c.size, Alignment(c.size))
    && IsSpanSize(c.pages * PAGE_SIZE, c.size, NumMove(c.size, transfer) / 4)
  }

  /** Class 0 is not used. The sizes increase, in steps that the class array can resolve. */
  ghost predicate Ordered(classes: seq<Class>) {
    && |classes| >= 1 && classes[0] == Class(0, 0)
    && (forall c :: 1 <= c < |classes| ==> Resolved(classes[c].size))
    && (forall c, d :: 0 <= c < d < |classes| ==> classes[c].size < classes[d].size)
  }

  /** A multiple of 8, and above 1024 of 128. */
  predicate Resolved(size: nat) {
    ALIGNMENT <= size <= MAX_SIZE && size % 8 == 0 && (size > MAX_SMALL_SIZE ==> size % 128 == 0)
  }

  /** Every class is well made, and no two neighbours are interchangeable. */
  ghost predicate WellMade(classes: seq<Class>, transfer: nat) {
    && (forall c {:trigger ClassOk(classes[c], transfer)} :: 1 <= c < |classes| ==> ClassOk(classes[c], transfer))
    && (forall c {:trigger UnlikeNext(classes, c)} :: 1 <= c < |classes| - 1 ==> UnlikeNext(classes, c))
  }

  ghost predicate ClassesOk(classes: seq<Class>, transfer: nat) {
    Ordered(classes) && WellMade(classes, transfer)
  }

  ghost predicate UnlikeNext(classes: seq<Class>, c: nat)
    requires c + 1 < |classes|
  {
    !Alike(classes[c], classes[c + 1])
  }

  /** Two classes that cut the same span into the same number of objects. */
  predicate Alike(c: Class, d: Class) {
    c.pages == d.pages && Objects(c) == Objects(d)
  }

  /** The class a size would make on its own. */
  ghost function ClassFor(size: nat, transfer: nat): Class
    requires size > 0
  {
    Class(size, SpanPages(size, NumMove(size, transfer) / 4))
  }

  /** A class is gained where the next one is not interchangeable with it. */
  function Extra(c: Class, d: Class): nat {
    if Alike(c, d) then 0 else 1
  }

  /** The classes gained on the way from one size to the next. */
  ghost function Gain(size: nat, next: nat, transfer: nat): nat
    requires size > 0 && next > 0
  {
    Extra(ClassFor(size, transfer), ClassFor(next, transfer))
  }

  /** The classes gained on the way from a size to the largest. */
  ghost function GainFrom(size: nat, transfer: nat): nat
    requires size > 0
    decreases MAX_SIZE - size, transfer
  {
    AlignmentIsPower(size);
    if size >= MAX_SIZE then 0
    else Gain(size, size + Alignment(size), transfer) + GainFrom(size + Alignment(size), transfer)
  }

  /** Sizes that are multiples of their own alignment are multiples of 8, and above 1024 of 128. */
  lemma AlignedIsResolved(size: nat)
    requires ALIGNMENT <= size <= MAX_SIZE && Aligned(size, Alignment(size))
    ensures Resolved(size)
  {
    var a := Alignment(size);
    AlignmentIsPower(size);
    SmallPowers();
    PowersDivide(8, a);
    DividesThrough(size, a, 8);
    if size > MAX_SMALL_SIZE {
      assert Pow2(10) == 8 * 128 by { Pow2Add(3, 7); }
      LgUnique(1024, 10);
      AlignmentGrows(1024, size);
      PowersDivide(128, a);
      DividesThrough(size, a, 128);
    }
  }

  lemma GrowKeeps(classes: seq<Class>, c: Class, transfer: nat)
    requires ClassesOk(classes, transfer) && |classes| >= 2 && ClassOk(c, transfer) && Resolved(c.size)
    requires classes[|classes| - 1].size < c.size && Alike(classes[|classes| - 1], c)
    ensures ClassesOk(classes[|classes| - 1 := c], transfer)
  {
    var more := classes[|classes| - 1 := c];
    forall i | 1 <= i < |more|
      ensures ClassOk(more[i], transfer)
    {
      assert i < |classes| - 1 ==> ClassOk(classes[i], transfer);
    }
    forall i | 1 <= i < |more| - 1
      ensures UnlikeNext(more, i)
    {
      assert UnlikeNext(classes, i);
    }
  }

  lemma AppendKeeps(classes: seq<Class>, c: Class, transfer: nat)
    requires ClassesOk(classes, transfer) && ClassOk(c, transfer) && Resolved(c.size)
    requires classes[|classes| - 1].size < c.size && (|classes| >= 2 ==> !Alike(classes[|classes| - 1], c))
    ensures ClassesOk(classes + [c], transfer)
  {
    var more := classes + [c];
    forall i | 1 <= i < |more|
      ensures ClassOk(more[i], transfer)
    {
      assert i < |classes| ==> ClassOk(classes[i], transfer);
    }
    forall i | 1 <= i < |more| - 1
      ensures UnlikeNext(more, i)
    {
      assert i < |classes| - 1 ==> UnlikeNext(classes, i);
    }
  }

  /** A class is appended, or takes the place of the last one if that is interchangeable with it. */
  ghost predicate Added(before: seq<Class>, after: seq<Class>, c: Class) {
    if |before| >= 2 && Alike(before[|before| - 1], c) then after == before[|before| - 1 := c]
    else after == before + [c]
  }

  /** Take one more size into account: it becomes a class, or the last class grows to it. */
  method AddSize(classes: seq<Class>, size: nat, transfer: nat) returns (more: seq<Class>)
    requires ClassesOk(classes, transfer) && classes[|classes| - 1].size < size
    requires ALIGNMENT <= size <= MAX_SIZE && Aligned(size, Alignment(size))
    ensures ClassesOk(more, transfer) && |more| >= 2 && more[|more| - 1] == ClassFor(size, transfer)
    ensures |more| == |classes| + if |classes| >= 2 then Extra(classes[|classes| - 1], ClassFor(size, transfer)) else 1
    ensures Added(classes, more, ClassFor(size, transfer))
  {
    var psize := SpanSize(size, NumMove(size, transfer) / 4);
    SpanSizeIs(psize, size, NumMove(size, transfer) / 4);
    var pages := psize / PAGE_SIZE;
    var last := |classes| - 1;
    AlignedIsResolved(size);
    if last >= 1 && Alike(classes[last], Class(size, pages)) {
      GrowKeeps(classes, Class(size, pages), transfer);
      return classes[last := Class(size, pages)];
    }
    AppendKeeps(classes, Class(size, pages), transfer);
    return classes + [Class(size, pages)];
  }

  /** One round of the loop over the sizes. */
  method TakeSize(classes: seq<Class>, ghost last: nat, size: nat, transfer: nat) returns (more: seq<Class>, next: nat)
    requires Standing(classes, last, size, transfer) && size <= MAX_SIZE
    ensures Standing(more, size, next, transfer) && next > size
  {
    var alignment := AlignmentForSize(size);
    more := AddSize(classes, size, transfer);
    StandingStep(classes, more, last, size, transfer);
    next := size + alignment;
  }

  /** All size classes, for a number of objects to transfer at a time: class 0, the class of the smallest size, and one
      more wherever the way up to the largest size gains one. A size has a class of its own exactly if it is the largest
      or is not interchangeable with the next one up. */
  method ChooseClasses(transfer: nat) returns (classes: seq<Class>)
    ensures ClassesOk(classes, transfer) && |classes| >= 2 && classes[|classes| - 1].size == MAX_SIZE
    ensures |classes| == 2 + GainFrom(ALIGNMENT, transfer)
    ensures forall z: nat :: HasSize(classes, z) <==> Chosen(z, transfer)
  {
    classes := [Class(0, 0)];
    var size: nat := ALIGNMENT;
    ghost var last: nat := 0;
    StandingStarts(transfer);
    while size <= MAX_SIZE
      invariant Standing(classes, last, size, transfer)
      decreases MAX_SIZE - size
    {
      ghost var before := size;
      classes, size := TakeSize(classes, last, size, transfer);
      last := before;
    }
    StandingEnds(classes, last, size, transfer);
  }

  ghost predicate Standing(classes: seq<Class>, last: nat, size: nat, transfer: nat) {
    ClassesOk(classes, transfer) && Progress(classes, last, size, transfer) && ChosenBelow(classes, last, transfer)
  }

  lemma StandingStarts(transfer: nat)
    ensures Standing([Class(0, 0)], 0, ALIGNMENT, transfer)
  {
    ProgressStarts(transfer);
  }

  lemma StandingStep(before: seq<Class>, after: seq<Class>, last: nat, size: nat, transfer: nat)
    requires Standing(before, last, size, transfer) && size <= MAX_SIZE && ClassesOk(after, transfer) && |after| >= 2
    requires after[|after| - 1] == ClassFor(size, transfer) && Added(before, after, ClassFor(size, transfer))
    requires |after| == |before| + if |before| >= 2 then Extra(before[|before| - 1], ClassFor(size, transfer)) else 1
    ensures Standing(after, size, size + Alignment(size), transfer)
  {
    ProgressStep(before, after, last, size, transfer);
    ChosenStep(before, after, last, size, transfer);
  }

  lemma StandingEnds(classes: seq<Class>, last: nat, size: nat, transfer: nat)
    requires Standing(classes, last, size, transfer) && size > MAX_SIZE
    ensures |classes| >= 2 && classes[|classes| - 1].size == MAX_SIZE && |classes| == 2 + GainFrom(ALIGNMENT, transfer)
    ensures forall z: nat :: HasSize(classes, z) <==> Chosen(z, transfer)
  {
    ProgressEnds(classes, last, size, transfer);
    ChosenEnds(classes, transfer);
  }

  /** A class other than class 0 has this size. */
  ghost predicate HasSize(classes: seq<Class>, z: nat) {
    exists c :: 1 <= c < |classes| && classes[c].size == z
  }

  /** A size with a class of its own. */
  ghost predicate Chosen(z: nat, transfer: nat) {
    && ALIGNMENT <= z <= MAX_SIZE && Aligned(z, Alignment(z))
    && (z == MAX_SIZE || Gain(z, z + Alignment(z), transfer) == 1)
  }

  ghost predicate ChosenBelow(classes: seq<Class>, last: nat, transfer: nat) {
    forall z: nat :: z < last ==> (HasSize(classes, z) <==> Chosen(z, transfer))
  }

  /** No size between two that follow each other is a multiple of its own alignment. */
  lemma NoSizeBetween(last: nat, z: nat)
    requires ALIGNMENT <= last < z < last + Alignment(last) && last < MAX_SIZE && z <= MAX_SIZE
    requires Aligned(last, Alignment(last))
    ensures !Aligned(z, Alignment(z))
  {
    var a := Alignment(last);
    AlignmentIsPower(last);
    AlignmentIsPower(z);
    AlignmentGrows(last, z);
    if Aligned(z, Alignment(z)) {
      PowersDivide(a, Alignment(z));
      DividesThrough(z, Alignment(z), a);
      MultiplesApart(last, z, a);
    }
  }

  /** The sizes that have a class after one more is taken into account. */
  lemma SizesAfter(before: seq<Class>, after: seq<Class>, c: Class, z: nat)
    requires Ordered(before) && Added(before, after, c) && before[|before| - 1].size < c.size && z < c.size
    ensures HasSize(after, z) <==>
              HasSize(before, z) && (z == before[|before| - 1].size ==> !Alike(before[|before| - 1], c))
  {
    var last := |before| - 1;
    if HasSize(before, z) {
      var i :| 1 <= i < |before| && before[i].size == z;
      assert i < last ==> after[i] == before[i];
      assert i == last && !Alike(before[last], c) ==> after[i] == before[i];
      assert i < last ==> before[i].size < before[last].size;
    }
    if HasSize(after, z) {
      var i :| 1 <= i < |after| && after[i].size == z;
      assert i < |before| && after[i] == before[i];
    }
  }

  /** The last size and the next one. */
  ghost predicate Follows(before: seq<Class>, last: nat, size: nat, transfer: nat) {
    && |before| >= 1 && before[|before| - 1].size == last < size <= MAX_SIZE
    && if last == 0 then size == ALIGNMENT && |before| == 1
       else
         && |before| >= 2 && before[|before| - 1] == ClassFor(last, transfer) && ALIGNMENT <= last
         && size == last + Alignment(last) && Aligned(last, Alignment(last))
  }

  lemma ProgressFollows(before: seq<Class>, last: nat, size: nat, transfer: nat)
    requires ClassesOk(before, transfer) && Progress(before, last, size, transfer) && size <= MAX_SIZE
    ensures Follows(before, last, size, transfer)
  {
    if last > 0 {
      assert ClassOk(before[|before| - 1], transfer);
    }
  }

  /** Whether the last size keeps its class is settled when the next one is taken into account. */
  lemma LastSettled(before: seq<Class>, last: nat, size: nat, transfer: nat)
    requires Follows(before, last, size, transfer) && last > 0
    ensures HasSize(before, last)
    ensures Chosen(last, transfer) <==> !Alike(before[|before| - 1], ClassFor(size, transfer))
  {
    assert before[|before| - 1].size == last;
  }

  lemma ChosenOne(before: seq<Class>, after: seq<Class>, last: nat, size: nat, transfer: nat, z: nat)
    requires Ordered(before) && Follows(before, last, size, transfer) && last <= z < size
    requires Added(before, after, ClassFor(size, transfer))
    ensures HasSize(after, z) <==> Chosen(z, transfer)
  {
    SizesAfter(before, after, ClassFor(size, transfer), z);
    if last == 0 {
      assert !HasSize(before, z);
    } else if z > last {
      NoSizeBetween(last, z);
      NoneAbove(before, z);
    } else {
      LastSettled(before, last, size, transfer);
    }
  }

  lemma ChosenStep(before: seq<Class>, after: seq<Class>, last: nat, size: nat, transfer: nat)
    requires ClassesOk(before, transfer) && Progress(before, last, size, transfer) && size <= MAX_SIZE
    requires ChosenBelow(before, last, transfer) && Added(before, after, ClassFor(size, transfer))
    ensures ChosenBelow(after, size, transfer)
  {
    ProgressFollows(before, last, size, transfer);
    forall z: nat | z < size
      ensures HasSize(after, z) <==> Chosen(z, transfer)
    {
      if z < last {
        SizesAfter(before, after, ClassFor(size, transfer), z);
      } else {
        ChosenOne(before, after, last, size, transfer, z);
      }
    }
  }

  lemma NoneAbove(classes: seq<Class>, z: nat)
    requires Ordered(classes) && z > classes[|classes| - 1].size
    ensures !HasSize(classes, z)
  {
    forall c | 1 <= c < |classes|
      ensures classes[c].size != z
    {
      assert c < |classes| - 1 ==> classes[c].size < classes[|classes| - 1].size;
    }
  }

  lemma ChosenEnds(classes: seq<Class>, transfer: nat)
    requires ClassesOk(classes, transfer) && |classes| >= 2 && classes[|classes| - 1].size == MAX_SIZE
    requires ChosenBelow(classes, MAX_SIZE, transfer)
    ensures forall z: nat :: HasSize(classes, z) <==> Chosen(z, transfer)
  {
    assert ClassOk(classes[|classes| - 1], transfer);
    forall z: nat | z > MAX_SIZE
      ensures !HasSize(classes, z)
    {
      NoneAbove(classes, z);
    }
  }

  lemma ProgressStarts(transfer: nat)
    ensures ClassesOk([Class(0, 0)], transfer) && Progress([Class(0, 0)], 0, ALIGNMENT, transfer)
  {
  }

  lemma ProgressEnds(classes: seq<Class>, last: nat, size: nat, transfer: nat)
    requires Progress(classes, last, size, transfer) && size > MAX_SIZE
    ensures |classes| >= 2 && classes[|classes| - 1].size == MAX_SIZE && |classes| == 2 + GainFrom(ALIGNMENT, transfer)
  {
    assert GainFrom(MAX_SIZE, transfer) == 0;
  }

  /** Where the loop stands: the next size, the last one taken, and how many classes there are by then. */
  ghost predicate Progress(classes: seq<Class>, last: nat, size: nat, transfer: nat) {
    && |classes| >= 1 && classes[|classes| - 1].size == last < size
    && (size <= MAX_SIZE ==> ALIGNMENT <= size && Aligned(size, Alignment(size)))
    && (size > MAX_SIZE ==> last == MAX_SIZE)
    && if last == 0 then size == ALIGNMENT && |classes| == 1
       else size == last + Alignment(last) && Counted(classes, last, transfer)
  }

  lemma ProgressStep(before: seq<Class>, after: seq<Class>, last: nat, size: nat, transfer: nat)
    requires Progress(before, last, size, transfer) && size <= MAX_SIZE && |after| >= 2
    requires after[|after| - 1] == ClassFor(size, transfer)
    requires |after| == |before| + if |before| >= 2 then Extra(before[|before| - 1], ClassFor(size, transfer)) else 1
    ensures Progress(after, size, size + Alignment(size), transfer)
  {
    AlignmentIsPower(size);
    NextSize(size);
    if last > 0 {
      CountOne(before, after, last, transfer);
    }
  }

  /** The classes up to a size, with those still to be gained. */
  ghost predicate Counted(classes: seq<Class>, last: nat, transfer: nat)
    requires last > 0
  {
    && |classes| >= 2 && classes[|classes| - 1] == ClassFor(last, transfer)
    && |classes| + GainFrom(last, transfer) == 2 + GainFrom(ALIGNMENT, transfer)
  }

  lemma CountOne(before: seq<Class>, after: seq<Class>, last: nat, transfer: nat)
    requires 0 < last < MAX_SIZE && Counted(before, last, transfer) && |after| >= 2
    requires var next := last + Alignment(last);
             && after[|after| - 1] == ClassFor(next, transfer)
             && |after| == |before| + Extra(before[|before| - 1], ClassFor(next, transfer))
    ensures Counted(after, last + Alignment(last), transfer)
  {
  }
}
