/** The alignment of object sizes. */
module Alignments {
  import opened Common
  import opened Powers

  const MAX_SIZE: nat := 262144
  const ALIGNMENT: nat := 8
  const MIN_ALIGN: nat := 16

  // ----- logarithms

  /** The floor of the base-two logarithm. */
  function Lg(n: nat): nat {
    if n < 2 then 0 else 1 + Lg(n / 2)
  }

  lemma {:induction false} LgBounds(n: nat)
    requires n >= 1
    ensures Pow2(Lg(n)) <= n < 2 * Pow2(Lg(n))
  {
    if n < 2 {
    } else {
      LgBounds(n / 2);
    }
  }

  lemma LgUnique(n: nat, e: nat)
    requires Pow2(e) <= n < 2 * Pow2(e)
    ensures Lg(n) == e
  {
    LgBounds(n);
    if Lg(n) < e {
      Pow2Less(Lg(n), e);
    } else if e < Lg(n) {
      Pow2Less(e, Lg(n));
    }
  }

  function ShiftRight(n: nat, shift: nat): nat {
    if shift == 0 then n else ShiftRight(n / 2, shift - 1)
  }

  /** n is n0 without its last log bits. */
  ghost predicate Floor(n0: nat, n: nat, log: nat) {
    Pow2(log) * n <= n0 < Pow2(log) * (n + 1)
  }

  /** Halving once more takes one more bit off. */
  lemma FloorHalf(n0: nat, n: nat, log: nat)
    requires Floor(n0, n, log)
    ensures Floor(n0, n / 2, log + 1)
  {
    var p, h := Pow2(log), n / 2;
    assert Pow2(log + 1) == 2 * p;
    MulOrder(p, 2 * h, n);
    MulOrder(p, n + 1, 2 * h + 2);
    assert p * (2 * h) == (2 * p) * h && p * (2 * h + 2) == (2 * p) * (h + 1);
  }

  /** One round of the binary search for the logarithm. */
  lemma {:induction false} Shift(n0: nat, n: nat, log: nat, shift: nat)
    requires Floor(n0, n, log)
    ensures Floor(n0, ShiftRight(n, shift), log + shift)
    decreases shift
  {
    if shift == 0 {
    } else {
      FloorHalf(n0, n, log);
      Shift(n0, n / 2, log + 1, shift - 1);
    }
  }

  lemma {:induction false} ShiftBounds(n: nat, a: nat, b: nat)
    requires n < Pow2(a + b)
    ensures ShiftRight(n, a) < Pow2(b) && (ShiftRight(n, a) == 0 ==> n < Pow2(a))
  {
    if a == 0 {
    } else {
      ShiftBounds(n / 2, a - 1, b);
    }
  }

  /** What is left of the number before the round with shift 2^i. */
  function Limit(i: int): nat
    requires i >= -1
  {
    Pow2(Pow2(i + 1))
  }

  lemma LimitStep(i: nat)
    ensures Limit(i) == Pow2(2 * Pow2(i)) && Limit(i - 1) == Pow2(Pow2(i))
    ensures Limit(4) == 0x1_0000_0000 && Limit(-1) == 2
  {
    assert Pow2(8) == 256;
    Pow2Add(8, 8);
    Pow2Add(16, 16);
    assert Pow2(5) == 32;
  }

  /** Before the round with shift 2^i: n is what is left, log the bits taken off. */
  ghost predicate Searching(size: nat, n: nat, log: nat, i: int)
    requires i >= -1
  {
    Floor(size, n, log) && 1 <= n < Limit(i)
  }

  lemma LgStart(size: nat)
    requires 1 <= size < 0x1_0000_0000
    ensures Searching(size, size, 0, 4)
  {
    LimitStep(4);
  }

  lemma LgRound(size: nat, n: nat, log: nat, i: nat)
    requires Searching(size, n, log, i)
    ensures var x := ShiftRight(n, Pow2(i));
            if x != 0 then Searching(size, x, log + Pow2(i), i - 1) else Searching(size, n, log, i - 1)
  {
    LimitStep(i);
    Shift(size, n, log, Pow2(i));
    ShiftBounds(n, Pow2(i), Pow2(i));
  }

  lemma LgEnd(size: nat, n: nat, log: nat)
    requires Searching(size, n, log, -1)
    ensures log == Lg(size) && Pow2(log) <= size < 2 * Pow2(log)
  {
    LimitStep(0);
    LgUnique(size, log);
  }

  /** Binary search for the highest bit, for numbers of up to 32 bits. */
  method LgFloor(size: nat) returns (log: nat)
    requires 1 <= size < 0x1_0000_0000
    ensures log == Lg(size) && Pow2(log) <= size < 2 * Pow2(log)
  {
    log := 0;
    var n := size;
    var i: int := 4;
    LgStart(size);
    while i >= 0
      invariant -1 <= i <= 4 && Searching(size, n, log, i)
    {
      var shift := Pow2(i);
      LgRound(size, n, log, i);
      var x := ShiftRight(n, shift);
      if x != 0 {
        n, log := x, log + shift;
      }
      i := i - 1;
    }
    LgEnd(size, n, log);
  }

  // ----- alignment of sizes

  /** The alignment an object of the given size gets. */
  function Alignment(size: nat): nat {
    var a :=
      if size > MAX_SIZE then PAGE_SIZE
      else if size >= 128 then Pow2(Lg(size)) / 8
      else if size >= MIN_ALIGN then MIN_ALIGN
      else ALIGNMENT;
    if a > PAGE_SIZE then PAGE_SIZE else a
  }

  lemma SmallPowers()
    ensures Pow2(3) == 8 && Pow2(4) == 16 && Pow2(7) == 128 && Pow2(13) == PAGE_SIZE && Pow2(18) == MAX_SIZE
  {
    assert Pow2(6) == 64;
    assert Pow2(12) == 64 * 64 by { Pow2Add(6, 6); }
    assert Pow2(18) == 64 * 4096 by { Pow2Add(6, 12); }
  }

  /** From 128 bytes on the alignment is an eighth of the power of two below the size, but no more than a page. */
  lemma LargeAlignment(size: nat) returns (e: nat)
    requires 128 <= size <= MAX_SIZE
    ensures 7 <= e && Pow2(e) <= size < 2 * Pow2(e) && Lg(size) == e && Pow2(e) == 8 * Pow2(e - 3)
    ensures Alignment(size) == if Pow2(e - 3) > PAGE_SIZE then PAGE_SIZE else Pow2(e - 3)
  {
    e := Lg(size);
    LgBounds(size);
    SmallPowers();
    assert e >= 7 by {
      if e < 7 {
        Pow2Less(e, 7);
      }
    }
    Pow2Add(e - 3, 3);
  }

  /** The checks at the end of AlignmentForSize cannot fail, and at most an eighth is lost to alignment. */
  lemma AlignmentIsPower(size: nat)
    ensures PowerOfTwo(Alignment(size)) && ALIGNMENT <= Alignment(size) <= PAGE_SIZE
    ensures size >= MIN_ALIGN ==> Alignment(size) >= MIN_ALIGN
    ensures 128 <= size <= MAX_SIZE ==> 8 * Alignment(size) <= size
  {
    SmallPowers();
    if 128 <= size <= MAX_SIZE {
      var e := LargeAlignment(size);
      if e > 7 {
        Pow2Less(4, e - 3);
      }
    }
  }

  /** The alignment for a size is a power of two from 8 bytes to a page. Sizes of 16 bytes and more get at least 16, and
      at most an eighth of the size can be lost by rounding up to it. */
  method AlignmentForSize(size: nat) returns (alignment: nat)
    ensures alignment == Alignment(size) && PowerOfTwo(alignment) && ALIGNMENT <= alignment <= PAGE_SIZE
    ensures size >= MIN_ALIGN ==> alignment >= MIN_ALIGN
    ensures 128 <= size <= MAX_SIZE ==> 8 * alignment <= size
    ensures size > MAX_SIZE ==> alignment == PAGE_SIZE
  {
    AlignmentIsPower(size);
    alignment := ALIGNMENT;
    if size > MAX_SIZE {
      alignment := PAGE_SIZE;
    } else if size >= 128 {
      var lg := LgFloor(size);
      alignment := Pow2(lg) / 8;
    } else if size >= MIN_ALIGN {
      alignment := MIN_ALIGN;
    }
    if alignment > PAGE_SIZE {
      alignment := PAGE_SIZE;
    }
  }

  /** A larger size has at least the alignment of a smaller one. */
  lemma AlignmentGrows(a: nat, b: nat)
    requires a <= b
    ensures Alignment(a) <= Alignment(b)
  {
    AlignmentIsPower(b);
    AlignmentIsPower(a);
    if 128 <= a && b <= MAX_SIZE {
      var e := LargeAlignment(a);
      var f := LargeAlignment(b);
      if f < e {
        Pow2Less(f, e);
      } else if e < f {
        Pow2Less(e - 3, f - 3);
      }
    }
  }

  /** Stepping from a size by its alignment arrives at a size that is a multiple of its own alignment, and the largest
      size is not stepped over. */
  lemma NextSize(size: nat)
    requires ALIGNMENT <= size <= MAX_SIZE && Aligned(size, Alignment(size))
    ensures var next := size + Alignment(size);
            if next <= MAX_SIZE then Aligned(next, Alignment(next)) else size == MAX_SIZE
  {
    var a := Alignment(size);
    AlignmentIsPower(size);
    SmallPowers();
    PowersDivide(a, PAGE_SIZE);
    if size < 128 {
      if size >= MIN_ALIGN {
        MultiplesApart(size, 128, 16);
      }
      assert Alignment(128) == 16 by { LgUnique(128, 7); }
    } else {
      assert MAX_SIZE % a == 0 by { DividesThrough(MAX_SIZE, PAGE_SIZE, a); }
      if size < MAX_SIZE {
        MultiplesApart(size, MAX_SIZE, a);
        NextLargeSize(size);
      }
    }
  }

  lemma NextLargeSize(size: nat)
    requires 128 <= size < MAX_SIZE && Aligned(size, Alignment(size)) && size + Alignment(size) <= MAX_SIZE
    ensures Aligned(size + Alignment(size), Alignment(size + Alignment(size)))
  {
    var e := LargeAlignment(size);
    var a, next := Alignment(size), size + Alignment(size);
    AlignmentIsPower(size);
    assert 2 * Pow2(e) == Pow2(e + 1);
    assert Pow2(e + 1) % a == 0 by {
      PowersDivide(a, Pow2(e + 1));
    }
    MultiplesApart(size, Pow2(e + 1), a);
    if next < Pow2(e + 1) {
      LgUnique(next, e);
    } else {
      AlignmentIsPower(next);
      PowersDivide(Alignment(next), next);
    }
  }
}
