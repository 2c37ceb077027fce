/** Powers of two, and divisibility by them. */
module Powers {

  function Pow2(e: nat): (p: nat)
    ensures p >= 1
  {
    if e == 0 then 1 else 2 * Pow2(e - 1)
  }

  ghost predicate PowerOfTwo(n: nat) {
    exists e: nat :: n == Pow2(e)
  }

  lemma {:induction false} Pow2Add(a: nat, b: nat)
    ensures Pow2(a + b) == Pow2(a) * Pow2(b)
  {
    if b == 0 {
    } else {
      Pow2Add(a, b - 1);
      assert Pow2(a) * Pow2(b) == Pow2(a) * Pow2(b - 1) * 2;
    }
  }

  lemma {:induction false} Pow2Less(a: nat, b: nat)
    requires a < b
    ensures 2 * Pow2(a) <= Pow2(b)
  {
    if b == a + 1 {
    } else {
      Pow2Less(a, b - 1);
    }
  }

  /** The smaller of two powers of two divides the larger. */
  lemma PowersDivide(a: nat, b: nat)
    requires PowerOfTwo(a) && PowerOfTwo(b) && a <= b
    ensures a > 0 && b % a == 0
  {
    var i: nat :| a == Pow2(i);
    var j: nat :| b == Pow2(j);
    if j < i {
      Pow2Less(j, i);
    } else {
      Pow2Add(i, j - i);
      MultipleMod(a, Pow2(j - i));
    }
  }

  lemma MultipleMod(a: nat, k: nat)
    requires a > 0
    ensures a * k % a == 0
  {
    DivideExactly(a * k, a, k);
  }

  lemma DivideExactly(x: nat, a: nat, k: nat)
    requires a > 0 && x == a * k
    ensures x % a == 0 && x / a == k
  {
    MulOrder(a, x / a + 1, k);
    MulOrder(a, k + 1, x / a);
  }

  lemma MulOrder(a: nat, b: nat, c: nat)
    ensures b <= c ==> a * b <= a * c
  {
    if b <= c {
      assert a * c == a * b + a * (c - b);
    }
  }

  /** A divisor of a divisor divides. */
  lemma DividesThrough(x: nat, b: nat, a: nat)
    requires a > 0 && b > 0 && x % b == 0 && b % a == 0
    ensures x % a == 0
  {
    var k, m := x / b, b / a;
    assert x == b * k && b == a * m;
    assert x == a * (m * k);
    DivideExactly(x, a, m * k);
  }

  predicate Aligned(x: nat, a: nat) {
    a > 0 && x % a == 0
  }

  /** Distinct multiples are at least one step apart. */
  lemma MultiplesApart(x: nat, y: nat, a: nat)
    requires a > 0 && x % a == 0 && y % a == 0 && x < y
    ensures x + a <= y && (x + a) % a == 0
  {
    var i, j := x / a, y / a;
    assert x == a * i && y == a * j;
    MulOrder(a, j, i);
    MulOrder(a, i + 1, j);
    DivideExactly(x + a, a, i + 1);
  }
}
