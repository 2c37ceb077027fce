/** The size map: from sizes to size classes. */
module SizeMaps {
  import opened Common
  import opened Powers
  import opened Alignments
  import opened SizeClasses
  import opened ClassCounts

  const NUM_CLASSES: nat := 88
  const CLASS_ARRAY_SIZE: nat := 2169

  /** The entry of the class array for a size: one for every 8 bytes up to 1024, then one for every 128. */
  function ClassIndex(s: nat): (i: nat)
    requires s <= MAX_SIZE
    ensures i < CLASS_ARRAY_SIZE
  {
    if s <= MAX_SMALL_SIZE then (s + 7) / 8 else (s + 127 + 120 * 128) / 128
  }

  /** The class for a size is the first one that is large enough. */
  ghost predicate IsClassOf(classes: seq<Class>, size: nat, c: nat) {
    1 <= c < |classes| && size <= classes[c].size && (c > 1 ==> classes[c - 1].size < size)
  }

  /** No multiple of 8, or of 128 above 1024, separates sizes that share an entry of the class array. */
  lemma NothingBetween(s: nat, t: nat, m: nat)
    requires t <= s <= MAX_SIZE && ClassIndex(s) == ClassIndex(t)
    requires m % 8 == 0 && (m > MAX_SMALL_SIZE ==> m % 128 == 0) && m < s
    ensures m < t
  {
  }

  lemma RoundUp(size: nat)
    requires size <= MAX_SIZE
    ensures var up := (size + 7) / 8 * 8; size <= up <= MAX_SIZE && ClassIndex(up) == ClassIndex(size)
  {
  }

  /** Sizes that share an entry of the class array share their class, so that flattening the array loses nothing. */
  lemma SameIndexSameClass(classes: seq<Class>, s: nat, t: nat, c: nat)
    requires Ordered(classes) && t <= s <= MAX_SIZE && ClassIndex(s) == ClassIndex(t)
    requires IsClassOf(classes, s, c)
    ensures IsClassOf(classes, t, c)
  {
    if c > 1 {
      NothingBetween(s, t, classes[c - 1].size);
    }
  }

  /** The multiples of 8 below s have their class in the array. */
  ghost predicate Filled(a: seq<nat>, classes: seq<Class>, s: nat)
    requires |a| == CLASS_ARRAY_SIZE
  {
    forall t: nat {:trigger ClassIndex(t)} :: t < s && t <= MAX_SIZE && t % 8 == 0 ==>
      IsClassOf(classes, t, a[ClassIndex(t)])
  }

  lemma FillOne(a: seq<nat>, classes: seq<Class>, s: nat, c: nat)
    requires |a| == CLASS_ARRAY_SIZE && Ordered(classes) && Filled(a, classes, s)
    requires s % 8 == 0 && s <= MAX_SIZE && IsClassOf(classes, s, c)
    ensures Filled(a[ClassIndex(s) := c], classes, s + 8)
  {
    forall t: nat | t < s + 8 && t <= MAX_SIZE && t % 8 == 0
      ensures IsClassOf(classes, t, a[ClassIndex(s) := c][ClassIndex(t)])
    {
      if ClassIndex(t) == ClassIndex(s) {
        SameIndexSameClass(classes, s, t, c);
      }
    }
  }

  /** Once all multiples of 8 are filled in, the array is right for every size. */
  lemma FilledForAll(a: seq<nat>, classes: seq<Class>, size: nat)
    requires |a| == CLASS_ARRAY_SIZE && Ordered(classes) && Filled(a, classes, MAX_SIZE + 1)
    requires size <= MAX_SIZE
    ensures IsClassOf(classes, size, a[ClassIndex(size)])
  {
    var up := (size + 7) / 8 * 8;
    RoundUp(size);
    SameIndexSameClass(classes, up, size, a[ClassIndex(up)]);
  }

  /** The multiple of 8 after s, and the end of the loop over them. */
  lemma StepOn(s: nat, max: nat)
    requires s % 8 == 0 && max % 8 == 0 && s <= max
    ensures (s + 8) % 8 == 0 && (s + 8 <= max || s + 8 == max + 8)
  {
  }

  lemma NextStart(below: nat, max: nat)
    requires below % 8 == 0 && max % 8 == 0 && below < max
    ensures below + 8 <= max
  {
  }

  /** The sizes of one class. */
  method FillClass(a: seq<nat>, classes: seq<Class>, c: nat, nextSize: nat) returns (filled: seq<nat>)
    requires Ordered(classes) && 1 <= c < |classes| && |a| == CLASS_ARRAY_SIZE
    requires nextSize % 8 == 0 && Filled(a, classes, nextSize)
    requires nextSize == if c == 1 then 0 else classes[c - 1].size + ALIGNMENT
    ensures |filled| == CLASS_ARRAY_SIZE && Filled(filled, classes, classes[c].size + ALIGNMENT)
    ensures (classes[c].size + ALIGNMENT) % 8 == 0
  {
    var max := classes[c].size;
    assert classes[c - 1].size < max && Resolved(max);
    assert c > 1 ==> Resolved(classes[c - 1].size);
    NextStart(classes[c - 1].size, max);
    StepOn(max, max);
    filled := a;
    var s := nextSize;
    while s <= max
      invariant nextSize <= s && (s <= max || s == max + ALIGNMENT) && s % 8 == 0
      invariant |filled| == CLASS_ARRAY_SIZE && Filled(filled, classes, s)
    {
      StepOn(s, max);
      FillOne(filled, classes, s, c);
      filled := filled[ClassIndex(s) := c];
      s := s + ALIGNMENT;
    }
  }

  /** The two nested loops that fill the class array. */
  method FillClassArray(classes: seq<Class>) returns (a: seq<nat>)
    requires Ordered(classes) && |classes| == NUM_CLASSES && classes[NUM_CLASSES - 1].size == MAX_SIZE
    ensures |a| == CLASS_ARRAY_SIZE && Filled(a, classes, MAX_SIZE + 1)
  {
    a := seq(CLASS_ARRAY_SIZE, _ => 0);
    var nextSize: nat := 0;
    var c := 1;
    while c < NUM_CLASSES
      invariant 1 <= c <= NUM_CLASSES && |a| == CLASS_ARRAY_SIZE && nextSize % 8 == 0
      invariant Filled(a, classes, nextSize)
      invariant nextSize == if c == 1 then 0 else classes[c - 1].size + ALIGNMENT
    {
      a := FillClass(a, classes, c, nextSize);
      nextSize := classes[c].size + ALIGNMENT;
      c := c + 1;
    }
  }

  /** The entry of the array for a size is its class, whose size is a multiple of the alignment promised for the
      requested size, although the class may have been merged upwards. */
  lemma ClassFits(a: seq<nat>, classes: seq<Class>, transfer: nat, size: nat)
    requires |a| == CLASS_ARRAY_SIZE && ClassesOk(classes, transfer) && Filled(a, classes, MAX_SIZE + 1)
    requires size <= MAX_SIZE
    ensures var c := a[ClassIndex(size)];
            IsClassOf(classes, size, c) && Aligned(classes[c].size, Alignment(size))
  {
    FilledForAll(a, classes, size);
    var c := classes[a[ClassIndex(size)]];
    assert ClassOk(c, transfer);
    AlignmentGrows(size, c.size);
    AlignmentIsPower(size);
    AlignmentIsPower(c.size);
    PowersDivide(Alignment(size), Alignment(c.size));
    DividesThrough(c.size, Alignment(c.size), Alignment(size));
  }

  /** The sizes that the double check looks at. */
  predicate Sampled(size: nat) {
    size <= MAX_SIZE && if size <= 1032 then size % 8 == 0 else size % 128 == 8
  }

  /** The class that the array gives for a size exists, holds the size, and the one before it does not. */
  ghost predicate RightClass(a: seq<nat>, classes: seq<Class>, size: nat)
    requires |a| == CLASS_ARRAY_SIZE && |classes| == NUM_CLASSES && size <= MAX_SIZE
  {
    var c := a[ClassIndex(size)];
    && 1 <= c < 88 && size <= classes[c].size && classes[c].size > 0
    && (c >= 2 ==> classes[c - 1].size < size)
  }

  /** The double check at the end of the initialization accepts exactly the arrays that are right for all those
      sizes. */
  method DoubleCheck(a: seq<nat>, classes: seq<Class>) returns (ok: bool)
    requires |a| == CLASS_ARRAY_SIZE && |classes| == NUM_CLASSES
    ensures ok <==> forall size: nat {:trigger Sampled(size)} :: Sampled(size) ==> RightClass(a, classes, size)
  {
    var size := 0;
    while size <= MAX_SIZE
      invariant if size <= 1032 then size % 8 == 0 else size % 128 == 8
      invariant forall s: nat {:trigger Sampled(s)} :: Sampled(s) && s < size ==> RightClass(a, classes, s)
      decreases MAX_SIZE - size
    {
      assert Sampled(size);
      var c := a[ClassIndex(size)];
      if c <= 0 || c >= NUM_CLASSES {
        return false;
      }
      if c > 1 && size <= classes[c - 1].size {
        return false;
      }
      if size > classes[c].size || classes[c].size == 0 {
        return false;
      }
      NextSample(size);
      size := size + if size <= MAX_SMALL_SIZE then 8 else 128;
    }
    return true;
  }

  /** No sample lies between one and the next. */
  lemma NextSample(size: nat)
    requires Sampled(size)
    ensures var next := size + if size <= 1024 then 8 else 128;
            && (if next <= 1032 then next % 8 == 0 else next % 128 == 8)
            && forall s: nat {:trigger Sampled(s)} :: size < s < next ==> !Sampled(s)
  {
    StepOfSample(size);
    forall s: nat | Sampled(s) && size < s
      ensures s >= size + if size <= 1024 then 8 else 128
    {
      if size <= 1024 {
        SmallStep(size, s);
      } else {
        LargeStep(size, s);
      }
    }
  }

  lemma StepOfSample(size: nat)
    requires if size <= 1032 then size % 8 == 0 else size % 128 == 8
    ensures if size <= 1024 then size + 8 <= 1032 && (size + 8) % 8 == 0
            else size % 128 == 8 && (size + 128) % 128 == 8 && size + 128 > 1032
  {
  }

  lemma SmallStep(x: nat, y: nat)
    requires x < y && x <= 1024 && x % 8 == 0 && (if y <= 1032 then y % 8 == 0 else y % 128 == 8)
    ensures y >= x + 8
  {
  }

  lemma LargeStep(x: nat, y: nat)
    requires x < y && x % 128 == 8 && y % 128 == 8
    ensures y >= x + 128
  {
    MultiplesApart(x - 8, y - 8, 128);
  }

  /** It cannot fail. */
  lemma CheckSucceeds(a: seq<nat>, classes: seq<Class>, transfer: nat, size: nat)
    requires |a| == CLASS_ARRAY_SIZE && ClassesOk(classes, transfer) && |classes| == NUM_CLASSES
    requires Filled(a, classes, MAX_SIZE + 1) && size <= MAX_SIZE
    ensures RightClass(a, classes, size)
  {
    FilledForAll(a, classes, size);
  }

  method MoveCounts(classes: seq<Class>, transfer: nat) returns (counts: seq<nat>)
    requires |classes| == NUM_CLASSES
    ensures |counts| == NUM_CLASSES
    ensures forall c :: 1 <= c < NUM_CLASSES ==> counts[c] == NumMove(classes[c].size, transfer)
  {
    counts := [0];
    while |counts| < NUM_CLASSES
      invariant 1 <= |counts| <= NUM_CLASSES
      invariant forall c :: 1 <= c < |counts| ==> counts[c] == NumMove(classes[c].size, transfer)
    {
      counts := counts + [NumMove(classes[|counts|].size, transfer)];
    }
  }

  class SizeMap {
    var classes: seq<Class>
    var classArray: seq<nat>
    var numObjectsToMove: seq<nat>
    ghost var transfer: nat

    ghost predicate Valid()
      reads this
    {
      && ClassesOk(classes, transfer) && |classes| == NUM_CLASSES && classes[NUM_CLASSES - 1].size == MAX_SIZE
      && (forall z: nat :: HasSize(classes, z) <==> Chosen(z, transfer))
      && |classArray| == CLASS_ARRAY_SIZE && Filled(classArray, classes, MAX_SIZE + 1)
      && |numObjectsToMove| == NUM_CLASSES
      && forall c :: 1 <= c < NUM_CLASSES ==> numObjectsToMove[c] == NumMove(classes[c].size, transfer)
    }

    constructor ()
      ensures classes == [] && classArray == [] && numObjectsToMove == [] && transfer == 0
    {
      classes, classArray, numObjectsToMove, transfer := [], [], [], 0;
    }

    /** The class of a size is the smallest class that holds it. */
    function SizeClass(size: nat): (c: nat)
      requires Valid() && size <= MAX_SIZE
      reads this
      ensures 1 <= c < NUM_CLASSES && size <= classes[c].size
      ensures forall d :: 1 <= d < c ==> classes[d].size < size
      ensures Aligned(classes[c].size, Alignment(size))
    {
      ClassFits(classArray, classes, transfer, size);
      classArray[ClassIndex(size)]
    }

    /** The initialization of the size map. It gives up when the number of classes is not the number the arrays were
        declared with, which is exactly when fewer than 40 objects may be transferred at a time; otherwise every size
        has its class, and the double check cannot fail. */
    method Init(transferNumObjects: nat) returns (ok: bool)
      modifies this
      ensures ok ==> Valid()
      ensures ok <==> transferNumObjects >= 40
      ensures ClassesOk(classes, transferNumObjects) && transfer == transferNumObjects
      ensures |classes| == if transferNumObjects < 36 then 86 else if transferNumObjects < 40 then 87 else NUM_CLASSES
    {
      transfer := transferNumObjects;
      classes := ChooseClasses(transferNumObjects);
      NumberOfClasses(transferNumObjects);
      if |classes| != NUM_CLASSES {
        return false;
      }
      classArray := FillClassArray(classes);
      ok := DoubleCheck(classArray, classes);
      forall size: nat | Sampled(size)
        ensures RightClass(classArray, classes, size)
      {
        CheckSucceeds(classArray, classes, transferNumObjects, size);
      }
      numObjectsToMove := MoveCounts(classes, transferNumObjects);
    }
  }

  /** The default number of objects to transfer makes a size map that works. */
  method DefaultSucceeds() returns (sizes: SizeMap)
    ensures fresh(sizes) && sizes.Valid() && sizes.transfer == 32768
  {
    sizes := new SizeMap();
    var ok := sizes.Init(32768);
  }

  /** TCMALLOC_TRANSFER_NUM_OBJ=32 makes 86 classes and ends in the crash for a wrong number of them. */
  method ThirtyTwoCrashes() returns (ok: bool, n: nat)
    ensures !ok && n == 86
  {
    var sizes := new SizeMap();
    ok := sizes.Init(32);
    n := |sizes.classes|;
  }
}
