/** How many size classes there are, for every number of objects to transfer: the loop over the sizes is followed
    octave by octave. */
module ClassCounts {
  import opened Common
  import opened Powers
  import opened Alignments
  import opened SizeClasses

  // ----- neighbours

  /** Sizes of which different numbers fit in a page are never interchangeable, however many pages they get. */
  lemma Differ(a: nat, b: nat, transfer: nat)
    requires 0 < a && 0 < b && PAGE_SIZE / a > PAGE_SIZE / b
    ensures Gain(a, b, transfer) == 1
  {
    var c, d := ClassFor(a, transfer), ClassFor(b, transfer);
    if c.pages == d.pages {
      SpanSizePositive(a, transfer);
      MorePerPage(a, b, c.pages);
    }
  }

  lemma SpanSizePositive(size: nat, transfer: nat)
    requires size > 0
    ensures ClassFor(size, transfer).pages >= 1
  {
    var blocks := NumMove(size, transfer) / 4;
    PassSize(0, size, blocks);
    FirstFitIsSpanSize(size, blocks, 1, blocks * size + 8 * size + 8);
  }

  lemma MorePerPage(a: nat, b: nat, pages: nat)
    requires 0 < a && 0 < b && pages >= 1 && PAGE_SIZE / a > PAGE_SIZE / b
    ensures pages * PAGE_SIZE / a > pages * PAGE_SIZE / b
  {
    var p, q := PAGE_SIZE / a, PAGE_SIZE / b;
    QuotientAtLeast(pages * PAGE_SIZE, a, pages * p) by {
      assert a * p <= PAGE_SIZE;
      MulOrder(pages, a * p, PAGE_SIZE);
      assert a * (pages * p) == pages * (a * p);
    }
    QuotientBelow(pages * PAGE_SIZE, b, pages * (q + 1)) by {
      assert PAGE_SIZE < b * (q + 1);
      MulLess(pages, PAGE_SIZE, b * (q + 1));
      assert b * (pages * (q + 1)) == pages * (b * (q + 1));
    }
    MulOrder(pages, q + 1, p);
  }

  lemma MulLess(a: nat, b: nat, c: nat)
    requires a >= 1 && b < c
    ensures a * b < a * c
  {
    MulOrder(a, b + 1, c);
  }

  lemma QuotientAtLeast(x: nat, a: nat, k: nat)
    requires a > 0 && a * k <= x
    ensures x / a >= k
  {
    MulOrder(a, x / a + 1, k);
  }

  lemma QuotientBelow(x: nat, a: nat, k: nat)
    requires a > 0 && x < a * k
    ensures x / a < k
  {
    MulOrder(a, k, x / a);
  }

  // ----- pages of a given size

  /** Every smaller number of pages is wasteful. */
  predicate AllWasteful(size: nat, k: nat)
    requires size > 0
  {
    k <= 1 || (Wasteful((k - 1) * PAGE_SIZE, size) && AllWasteful(size, k - 1))
  }

  lemma {:induction false} WastefulMeansNone(size: nat, blocks: nat, k: nat)
    requires size > 0 && AllWasteful(size, k) && k >= 1
    ensures NoneFits(k * PAGE_SIZE - 1, size, blocks)
  {
    if k == 1 {
      PassSize(0, size, blocks);
    } else {
      WastefulMeansNone(size, blocks, k - 1);
      PassSize((k - 1) * PAGE_SIZE, size, blocks);
    }
  }

  /** The objects asked for are never more than a quarter of 64 KB worth of them. */
  function MostBlocks(size: nat): nat
    requires size > 0
  {
    (if 65536 / size < 2 then 2 else 65536 / size) / 4
  }

  /** The first number of pages that is not wasteful holds enough objects, whatever the number to transfer. */
  lemma Fits(size: nat, transfer: nat, k: nat)
    requires size > 0 && k >= 1 && AllWasteful(size, k) && !Wasteful(k * PAGE_SIZE, size)
    requires k * PAGE_SIZE / size >= MostBlocks(size)
    ensures ClassFor(size, transfer) == Class(size, k)
  {
    var blocks := NumMove(size, transfer) / 4;
    WastefulMeansNone(size, blocks, k);
    SpanSizeIs(k * PAGE_SIZE, size, blocks);
  }

  /** One page is not wasteful but may hold too few objects; then it is two. */
  lemma FitsOrNext(size: nat, transfer: nat)
    requires 0 < size <= PAGE_SIZE && !Wasteful(PAGE_SIZE, size) && !Wasteful(2 * PAGE_SIZE, size)
    requires PAGE_SIZE / size < MostBlocks(size) <= 2 * PAGE_SIZE / size
    ensures ClassFor(size, transfer) == Class(size, if transfer < 4 * (PAGE_SIZE / size) + 4 then 1 else 2)
  {
    var blocks := NumMove(size, transfer) / 4;
    PassSize(0, size, blocks);
    if transfer < 4 * (PAGE_SIZE / size) + 4 {
      SpanSizeIs(PAGE_SIZE, size, blocks);
    } else {
      PassSize(PAGE_SIZE, size, blocks);
      SpanSizeIs(2 * PAGE_SIZE, size, blocks);
    }
  }

  // ----- the way up

  /** The classes gained in n steps of equal width. */
  ghost function GainSteps(size: nat, width: nat, n: nat, transfer: nat): nat
    requires size > 0
    decreases n
  {
    if n == 0 then 0
    else Gain(size, size + width, transfer) + GainSteps(size + width, width, n - 1, transfer)
  }

  /** Between two powers of two the steps have the same width. */
  lemma WidthInOctave(e: nat, width: nat, size: nat)
    requires 7 <= e <= 16 && width == Pow2(e - 3) && 8 * width <= size < 16 * width
    ensures size < MAX_SIZE && Alignment(size) == width
  {
    Pow2Add(e - 3, 3);
    SmallPowers();
    LgUnique(size, e);
    Pow2Less(e, 18);
    var f := LargeAlignment(size);
    if e - 3 < 13 {
      Pow2Less(e - 3, 13);
    }
  }

  lemma OneStepLess(size: nat, width: nat, n: nat)
    requires n > 0 && width > 0 && size + n * width == 16 * width
    ensures size < 16 * width && size + width + (n - 1) * width == 16 * width
  {
    assert (n - 1) * width == n * width - width;
  }

  /** One step up. */
  lemma ClimbOne(e: nat, width: nat, size: nat, transfer: nat)
    requires 7 <= e <= 16 && width == Pow2(e - 3) && 8 * width <= size < 16 * width
    ensures GainFrom(size, transfer) == Gain(size, size + width, transfer) + GainFrom(size + width, transfer)
  {
    WidthInOctave(e, width, size);
  }

  lemma {:induction false} Climb(e: nat, width: nat, size: nat, n: nat, transfer: nat)
    requires 7 <= e <= 16 && width == Pow2(e - 3) && 8 * width <= size && size + n * width == 16 * width
    ensures GainFrom(size, transfer) == GainSteps(size, width, n, transfer) + GainFrom(16 * width, transfer)
    decreases n
  {
    if n == 0 {
      assert size == 16 * width && GainSteps(size, width, 0, transfer) == 0;
    } else {
      OneStepLess(size, width, n);
      ClimbOne(e, width, size, transfer);
      Climb(e, width, size + width, n - 1, transfer);
      assert GainSteps(size, width, n, transfer)
          == Gain(size, size + width, transfer) + GainSteps(size + width, width, n - 1, transfer);
    }
  }

  lemma Widths()
    ensures Pow2(4) == 16 && Pow2(5) == 32 && Pow2(6) == 64 && Pow2(7) == 128 && Pow2(8) == 256 && Pow2(9) == 512
    ensures Pow2(10) == 1024 && Pow2(11) == 2048 && Pow2(12) == 4096 && Pow2(13) == 8192
  {
    assert Pow2(4) == 16 && Pow2(8) == 256;
    Pow2Add(4, 8);
  }

  // ----- octave by octave

  lemma FirstSizes(transfer: nat)
    ensures GainFrom(8, transfer) == 8 + GainFrom(128, transfer)
  {
    assert Alignment(8) == 8 && forall s :: 16 <= s < 128 ==> Alignment(s) == 16;
    assert GainFrom(8, transfer) == Gain(8, 16, transfer) + GainFrom(16, transfer);
    assert GainFrom(16, transfer) == Gain(16, 32, transfer) + GainFrom(32, transfer);
    assert GainFrom(32, transfer) == Gain(32, 48, transfer) + GainFrom(48, transfer);
    assert GainFrom(48, transfer) == Gain(48, 64, transfer) + GainFrom(64, transfer);
    assert GainFrom(64, transfer) == Gain(64, 80, transfer) + GainFrom(80, transfer);
    assert GainFrom(80, transfer) == Gain(80, 96, transfer) + GainFrom(96, transfer);
    assert GainFrom(96, transfer) == Gain(96, 112, transfer) + GainFrom(112, transfer);
    assert GainFrom(112, transfer) == Gain(112, 128, transfer) + GainFrom(128, transfer);
    Differ(8, 16, transfer);
    Differ(16, 32, transfer);
    Differ(32, 48, transfer);
    Differ(48, 64, transfer);
    Differ(64, 80, transfer);
    Differ(80, 96, transfer);
    Differ(96, 112, transfer);
    Differ(112, 128, transfer);
  }

  lemma Octave128(transfer: nat)
    ensures GainFrom(128, transfer) == 8 + GainFrom(256, transfer)
  {
    Widths();
    Climb(7, 16, 128, 8, transfer);
    Differ(128, 144, transfer);
    Differ(144, 160, transfer);
    Differ(160, 176, transfer);
    Differ(176, 192, transfer);
    Differ(192, 208, transfer);
    Differ(208, 224, transfer);
    Differ(224, 240, transfer);
    Differ(240, 256, transfer);
  }

  lemma Octave256(transfer: nat)
    ensures GainFrom(256, transfer) == 8 + GainFrom(512, transfer)
  {
    Widths();
    Climb(8, 32, 256, 8, transfer);
    Differ(256, 288, transfer);
    Differ(288, 320, transfer);
    Differ(320, 352, transfer);
    Differ(352, 384, transfer);
    Differ(384, 416, transfer);
    Differ(416, 448, transfer);
    Differ(448, 480, transfer);
    Differ(480, 512, transfer);
  }

  lemma Pages512(transfer: nat)
    ensures ClassFor(832, transfer) == Class(832, if transfer < 40 then 1 else 2)
    ensures ClassFor(896, transfer) == Class(896, if transfer < 40 then 1 else 2)
    ensures ClassFor(960, transfer) == Class(960, if transfer < 36 then 1 else 2)
    ensures ClassFor(1024, transfer) == Class(1024, if transfer < 36 then 1 else 2)
  {
    FitsOrNext(832, transfer);
    FitsOrNext(896, transfer);
    FitsOrNext(960, transfer);
    FitsOrNext(1024, transfer);
  }

  lemma Gains512(transfer: nat)
    ensures Gain(832, 896, transfer) == (if transfer < 40 then 0 else 1)
    ensures Gain(960, 1024, transfer) == (if transfer < 36 then 0 else 1)
  {
    Pages512(transfer);
  }

  lemma Octave512(transfer: nat)
    ensures GainFrom(512, transfer) ==
            8 - (if transfer < 40 then 1 else 0) - (if transfer < 36 then 1 else 0) + GainFrom(1024, transfer)
  {
    Widths();
    Climb(9, 64, 512, 8, transfer);
    Differ(512, 576, transfer);
    Differ(576, 640, transfer);
    Differ(640, 704, transfer);
    Differ(704, 768, transfer);
    Differ(768, 832, transfer);
    Differ(896, 960, transfer);
    Gains512(transfer);
  }

  lemma Pages1024(transfer: nat)
    ensures ClassFor(1408, transfer) == Class(1408, 2)
    ensures ClassFor(1536, transfer) == Class(1536, if transfer < 24 then 1 else 2)
    ensures ClassFor(1664, transfer) == Class(1664, 2)
    ensures ClassFor(1792, transfer) == Class(1792, if transfer < 20 then 1 else 2)
    ensures ClassFor(1920, transfer) == Class(1920, if transfer < 20 then 1 else 2)
    ensures ClassFor(2048, transfer) == Class(2048, if transfer < 20 then 1 else 2)
  {
    Fits(1408, transfer, 2);
    FitsOrNext(1536, transfer);
    Fits(1664, transfer, 2);
    FitsOrNext(1792, transfer);
    FitsOrNext(1920, transfer);
    FitsOrNext(2048, transfer);
  }

  lemma Gains1024(transfer: nat)
    ensures Gain(1408, 1536, transfer) == 1
    ensures Gain(1664, 1792, transfer) == (if transfer < 20 then 1 else 0)
    ensures Gain(1792, 1920, transfer) == (if transfer < 20 then 0 else 1)
    ensures Gain(1920, 2048, transfer) == 0
  {
    Pages1024(transfer);
  }

  lemma Octave1024(transfer: nat)
    ensures GainFrom(1024, transfer) == 6 + GainFrom(2048, transfer)
  {
    Widths();
    Climb(10, 128, 1024, 8, transfer);
    Differ(1024, 1152, transfer);
    Differ(1152, 1280, transfer);
    Differ(1280, 1408, transfer);
    Differ(1536, 1664, transfer);
    Gains1024(transfer);
  }

  lemma Pages2048(transfer: nat)
    ensures ClassFor(2304, transfer) == Class(2304, 2)
    ensures ClassFor(2560, transfer) == Class(2560, if transfer < 16 then 1 else 2)
    ensures ClassFor(2816, transfer) == Class(2816, 3)
    ensures ClassFor(3072, transfer) == Class(3072, 2)
    ensures ClassFor(3328, transfer) == Class(3328, 3)
    ensures ClassFor(3584, transfer) == Class(3584, if transfer < 12 then 1 else 2)
    ensures ClassFor(3840, transfer) == Class(3840, if transfer < 12 then 1 else 2)
    ensures ClassFor(4096, transfer) == Class(4096, if transfer < 12 then 1 else 2)
  {
    Fits(2304, transfer, 2);
    FitsOrNext(2560, transfer);
    Fits(2816, transfer, 3);
    Fits(3072, transfer, 2);
    Fits(3328, transfer, 3);
    FitsOrNext(3584, transfer);
    FitsOrNext(3840, transfer);
    FitsOrNext(4096, transfer);
  }

  lemma Gains2048(transfer: nat)
    ensures Gain(2304, 2560, transfer) == 1
    ensures Gain(2816, 3072, transfer) == 1
    ensures Gain(3072, 3328, transfer) == 1
    ensures Gain(3328, 3584, transfer) == 1
    ensures Gain(3584, 3840, transfer) == 0
    ensures Gain(3840, 4096, transfer) == 0
  {
    Pages2048(transfer);
  }

  lemma Octave2048(transfer: nat)
    ensures GainFrom(2048, transfer) == 6 + GainFrom(4096, transfer)
  {
    Widths();
    Climb(11, 256, 2048, 8, transfer);
    Differ(2048, 2304, transfer);
    Differ(2560, 2816, transfer);
    Gains2048(transfer);
  }

  lemma Pages4096(transfer: nat)
    ensures ClassFor(4608, transfer) == Class(4608, 3)
    ensures ClassFor(5120, transfer) == Class(5120, 2)
    ensures ClassFor(5632, transfer) == Class(5632, 3)
    ensures ClassFor(6144, transfer) == Class(6144, 3)
    ensures ClassFor(6656, transfer) == Class(6656, 5)
    ensures ClassFor(7168, transfer) == Class(7168, if transfer < 8 then 1 else 2)
    ensures ClassFor(7680, transfer) == Class(7680, if transfer < 8 then 1 else 2)
    ensures ClassFor(8192, transfer) == Class(8192, if transfer < 8 then 1 else 2)
  {
    Fits(4608, transfer, 3);
    Fits(5120, transfer, 2);
    Fits(5632, transfer, 3);
    Fits(6144, transfer, 3);
    Fits(6656, transfer, 5);
    FitsOrNext(7168, transfer);
    FitsOrNext(7680, transfer);
    FitsOrNext(8192, transfer);
  }

  lemma Gains4096(transfer: nat)
    ensures Gain(4608, 5120, transfer) == 1
    ensures Gain(5120, 5632, transfer) == 1
    ensures Gain(5632, 6144, transfer) == 0
    ensures Gain(6144, 6656, transfer) == 1
    ensures Gain(6656, 7168, transfer) == 1
    ensures Gain(7168, 7680, transfer) == 0
    ensures Gain(7680, 8192, transfer) == 0
  {
    Pages4096(transfer);
  }

  lemma Octave4096(transfer: nat)
    ensures GainFrom(4096, transfer) == 5 + GainFrom(8192, transfer)
  {
    Widths();
    Climb(12, 512, 4096, 8, transfer);
    Differ(4096, 4608, transfer);
    Gains4096(transfer);
  }

  lemma Pages8192(transfer: nat)
    ensures ClassFor(9216, transfer) == Class(9216, 5)
    ensures ClassFor(10240, transfer) == Class(10240, 4)
    ensures ClassFor(11264, transfer) == Class(11264, 3)
    ensures ClassFor(12288, transfer) == Class(12288, 3)
    ensures ClassFor(13312, transfer) == Class(13312, 5)
    ensures ClassFor(14336, transfer) == Class(14336, 2)
    ensures ClassFor(15360, transfer) == Class(15360, 2)
    ensures ClassFor(16384, transfer) == Class(16384, 2)
  {
    Fits(9216, transfer, 5);
    Fits(10240, transfer, 4);
    Fits(11264, transfer, 3);
    Fits(12288, transfer, 3);
    Fits(13312, transfer, 5);
    Fits(14336, transfer, 2);
    Fits(15360, transfer, 2);
    Fits(16384, transfer, 2);
  }

  lemma Gains8192(transfer: nat)
    ensures Gain(9216, 10240, transfer) == 1
    ensures Gain(10240, 11264, transfer) == 1
    ensures Gain(11264, 12288, transfer) == 0
    ensures Gain(12288, 13312, transfer) == 1
    ensures Gain(13312, 14336, transfer) == 1
    ensures Gain(14336, 15360, transfer) == 0
    ensures Gain(15360, 16384, transfer) == 0
  {
    Pages8192(transfer);
  }

  lemma Octave8192(transfer: nat)
    ensures GainFrom(8192, transfer) == 5 + GainFrom(16384, transfer)
  {
    Widths();
    Climb(13, 1024, 8192, 8, transfer);
    Differ(8192, 9216, transfer);
    Gains8192(transfer);
  }

  lemma Pages16384(transfer: nat)
    ensures ClassFor(16384, transfer) == Class(16384, 2)
    ensures ClassFor(18432, transfer) == Class(18432, 5)
    ensures ClassFor(20480, transfer) == Class(20480, 5)
    ensures ClassFor(22528, transfer) == Class(22528, 3)
    ensures ClassFor(24576, transfer) == Class(24576, 3)
    ensures ClassFor(26624, transfer) == Class(26624, 7)
    ensures ClassFor(28672, transfer) == Class(28672, 4)
    ensures ClassFor(30720, transfer) == Class(30720, 4)
    ensures ClassFor(32768, transfer) == Class(32768, 4)
  {
    Fits(16384, transfer, 2);
    Fits(18432, transfer, 5);
    Fits(20480, transfer, 5);
    Fits(22528, transfer, 3);
    Fits(24576, transfer, 3);
    Fits(26624, transfer, 7);
    Fits(28672, transfer, 4);
    Fits(30720, transfer, 4);
    Fits(32768, transfer, 4);
  }

  lemma Gains16384(transfer: nat)
    ensures Gain(16384, 18432, transfer) == 1
    ensures Gain(18432, 20480, transfer) == 0
    ensures Gain(20480, 22528, transfer) == 1
    ensures Gain(22528, 24576, transfer) == 0
    ensures Gain(24576, 26624, transfer) == 1
    ensures Gain(26624, 28672, transfer) == 1
    ensures Gain(28672, 30720, transfer) == 0
    ensures Gain(30720, 32768, transfer) == 0
  {
    Pages16384(transfer);
  }

  lemma Octave16384(transfer: nat)
    ensures GainFrom(16384, transfer) == 4 + GainFrom(32768, transfer)
  {
    Widths();
    Climb(14, 2048, 16384, 8, transfer);
    Gains16384(transfer);
  }

  lemma Pages32768(transfer: nat)
    ensures ClassFor(32768, transfer) == Class(32768, 4)
    ensures ClassFor(36864, transfer) == Class(36864, 5)
    ensures ClassFor(40960, transfer) == Class(40960, 5)
    ensures ClassFor(45056, transfer) == Class(45056, 6)
    ensures ClassFor(49152, transfer) == Class(49152, 6)
    ensures ClassFor(53248, transfer) == Class(53248, 7)
    ensures ClassFor(57344, transfer) == Class(57344, 7)
    ensures ClassFor(61440, transfer) == Class(61440, 8)
    ensures ClassFor(65536, transfer) == Class(65536, 8)
  {
    Fits(32768, transfer, 4);
    Fits(36864, transfer, 5);
    Fits(40960, transfer, 5);
    Fits(45056, transfer, 6);
    Fits(49152, transfer, 6);
    Fits(53248, transfer, 7);
    Fits(57344, transfer, 7);
    Fits(61440, transfer, 8);
    Fits(65536, transfer, 8);
  }

  lemma Gains32768(transfer: nat)
    ensures Gain(32768, 36864, transfer) == 1
    ensures Gain(36864, 40960, transfer) == 0
    ensures Gain(40960, 45056, transfer) == 1
    ensures Gain(45056, 49152, transfer) == 0
    ensures Gain(49152, 53248, transfer) == 1
    ensures Gain(53248, 57344, transfer) == 0
    ensures Gain(57344, 61440, transfer) == 1
    ensures Gain(61440, 65536, transfer) == 0
  {
    Pages32768(transfer);
  }

  lemma Octave32768(transfer: nat)
    ensures GainFrom(32768, transfer) == 4 + GainFrom(65536, transfer)
  {
    Widths();
    Climb(15, 4096, 32768, 8, transfer);
    Gains32768(transfer);
  }

  // ----- the largest sizes, one page apart

  lemma {:induction false} PartWasteful(size: nat, k: nat)
    requires size > 0 && (k - 1) * PAGE_SIZE < size
    ensures AllWasteful(size, k)
  {
    if k <= 1 {
    } else {
      assert (k - 1) * PAGE_SIZE % size == (k - 1) * PAGE_SIZE;
      PartWasteful(size, k - 1);
    }
  }

  /** From 64 KB on a class has one object per span. */
  lemma OneObject(k: nat, transfer: nat)
    requires k >= 8
    ensures ClassFor(k * PAGE_SIZE, transfer) == Class(k * PAGE_SIZE, k)
  {
    var size := k * PAGE_SIZE;
    PartWasteful(size, k);
    assert size % size == 0 && 65536 / size < 2;
    Fits(size, transfer, k);
  }

  lemma {:induction false} LargestSizes(k: nat, transfer: nat)
    requires 8 <= k <= 32
    ensures GainFrom(k * PAGE_SIZE, transfer) == 32 - k
    decreases 32 - k
  {
    var size := k * PAGE_SIZE;
    if k >= 32 {
    } else {
      PageWide(size);
      OneObject(k, transfer);
      OneObject(k + 1, transfer);
      LargestSizes(k + 1, transfer);
    }
  }

  lemma PageWide(size: nat)
    requires 65536 <= size <= MAX_SIZE
    ensures Alignment(size) == PAGE_SIZE
  {
    var e := LargeAlignment(size);
    SmallPowers();
    Widths();
    Pow2Add(13, 3);
    if e < 16 {
      Pow2Less(e, 16);
    } else if e > 16 {
      Pow2Less(13, e - 3);
    }
  }

  /** The number of size classes, for every number of objects to transfer at a time. */
  lemma NumberOfClasses(transfer: nat)
    ensures 2 + GainFrom(ALIGNMENT, transfer) == if transfer < 36 then 86 else if transfer < 40 then 87 else 88
  {
    FirstSizes(transfer);
    Octave128(transfer);
    Octave256(transfer);
    Octave512(transfer);
    Octave1024(transfer);
    Octave2048(transfer);
    Octave4096(transfer);
    Octave8192(transfer);
    Octave16384(transfer);
    Octave32768(transfer);
    LargestSizes(8, transfer);
  }
}
