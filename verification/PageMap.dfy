/** The three-level radix tree that maps page numbers to spans, for page numbers of any width: a third of the bits,
    rounded up, for each of the two interior levels and the rest for the leaves. It is proved to be a flat map. */
module PageMaps {
  import opened Common
  import opened Powers

  /** The lengths of the nodes and of the leaves. */
  datatype Shape = Shape(interior: nat, leaf: nat) {
    ghost predicate Valid() { interior >= 1 && leaf >= 1 }
    /** The page numbers below one entry of the root. */
    function Branch(): nat { interior * leaf }
    function Pages(): nat { interior * Branch() }
  }

  function InteriorBits(bits: nat): nat { (bits + 2) / 3 }

  function LeafBits(bits: nat): nat
    requires bits >= 2
  {
    bits - 2 * InteriorBits(bits)
  }

  /** The shape for page numbers of so many bits. */
  function ShapeFor(bits: nat): (g: Shape)
    requires bits >= 2
    ensures g.Valid()
  {
    Shape(Pow2(InteriorBits(bits)), Pow2(LeafBits(bits)))
  }

  /** The tree has room for exactly the page numbers of that width. */
  lemma ShapeHoldsAll(bits: nat)
    requires bits >= 2
    ensures ShapeFor(bits).Pages() == Pow2(bits)
  {
    ThreeParts(InteriorBits(bits), LeafBits(bits), bits);
  }

  lemma ThreeParts(i: nat, l: nat, bits: nat)
    requires bits == i + (i + l)
    ensures Shape(Pow2(i), Pow2(l)).Pages() == Pow2(bits)
  {
    Pow2Add(i, l);
    Pow2Add(i, i + l);
  }

  /** On x86_64 page numbers have 35 bits, elsewhere on 64-bit machines 51. */
  lemma KnownShapes()
    ensures ShapeFor(35) == Shape(4096, 2048) && ShapeFor(51) == Shape(131072, 131072)
  {
    assert Pow2(6) == 64 && Pow2(5) == 32;
    Pow2Add(6, 6);
    Pow2Add(6, 5);
    Pow2Add(6, 11);
  }

  type Leaf<V> = seq<Option<V>>
  type Node<V> = seq<Option<Leaf<V>>>
  type Root<V> = seq<Option<Node<V>>>

  // ----- keys and their indices

  /** The number of the leaf a key is in, counted from the first key. */
  function LeafNumber(g: Shape, k: nat): nat
    requires g.Valid()
  {
    k / g.leaf
  }

  function I1(g: Shape, k: nat): nat
    requires g.Valid()
  {
    LeafNumber(g, k) / g.interior
  }

  function I2(g: Shape, k: nat): (i: nat)
    requires g.Valid()
    ensures i < g.interior
  {
    LeafNumber(g, k) % g.interior
  }

  function I3(g: Shape, k: nat): (i: nat)
    requires g.Valid()
    ensures i < g.leaf
  {
    k % g.leaf
  }

  /** The first key of a leaf, and of a branch. */
  function LeafStart(g: Shape, d: nat): nat { d * g.leaf }

  function BranchStart(g: Shape, i: nat): nat { i * g.Branch() }

  lemma Divides(x: nat, a: nat)
    requires a > 0
    ensures x == a * (x / a) + x % a && x % a < a
  {
  }

  lemma Quotient(x: nat, a: nat, q: nat, r: nat)
    requires a > 0 && x == q * a + r && r < a
    ensures x / a == q && x % a == r
  {
    Divides(x, a);
    MulOrder(a, x / a + 1, q);
    MulOrder(a, q + 1, x / a);
  }

  lemma QuotientLess(x: nat, a: nat, q: nat)
    requires a > 0
    ensures x / a < q <==> x < q * a
  {
    Divides(x, a);
    MulOrder(a, x / a + 1, q);
    MulOrder(a, q, x / a);
  }

  /** The indices determine the leaf and the key; keys are in range exactly if their first index is. */
  lemma Indices(g: Shape, a: nat, b: nat)
    requires g.Valid()
    ensures I1(g, a) == I1(g, b) && I2(g, a) == I2(g, b) <==> LeafNumber(g, a) == LeafNumber(g, b)
    ensures LeafNumber(g, a) == LeafNumber(g, b) && I3(g, a) == I3(g, b) <==> a == b
  {
    Divides(LeafNumber(g, a), g.interior);
    Divides(LeafNumber(g, b), g.interior);
    Divides(a, g.leaf);
    Divides(b, g.leaf);
  }

  lemma InRange(g: Shape, k: nat)
    requires g.Valid()
    ensures I1(g, k) < g.interior <==> k < g.Pages()
  {
    QuotientLess(LeafNumber(g, k), g.interior, g.interior);
    QuotientLess(k, g.leaf, g.interior * g.interior);
    assert g.interior * g.interior * g.leaf == g.Pages();
  }

  /** The first index is the key without the bits of the other two. */
  lemma FirstIndex(g: Shape, k: nat)
    requires g.Valid()
    ensures g.Branch() > 0 && I1(g, k) == k / g.Branch()
  {
    var d, i := LeafNumber(g, k), I1(g, k);
    QuotientLess(d, g.interior, i + 1);
    QuotientLess(k, g.leaf, (i + 1) * g.interior);
    QuotientLess(d, g.interior, i);
    QuotientLess(k, g.leaf, i * g.interior);
    assert i * g.interior * g.leaf == i * g.Branch() && (i + 1) * g.interior * g.leaf == i * g.Branch() + g.Branch();
    Quotient(k, g.Branch(), i, k - i * g.Branch());
  }

  /** The keys of a leaf. */
  lemma KeysOfLeaf(g: Shape, k: nat, p: nat)
    requires g.Valid()
    ensures k == LeafStart(g, LeafNumber(g, k)) + I3(g, k)
    ensures LeafStart(g, LeafNumber(g, k) + 1) == LeafStart(g, LeafNumber(g, k)) + g.leaf
    ensures LeafNumber(g, p) == LeafNumber(g, k) <==>
            LeafStart(g, LeafNumber(g, k)) <= p < LeafStart(g, LeafNumber(g, k) + 1)
  {
    var d := LeafNumber(g, k);
    Divides(k, g.leaf);
    QuotientLess(p, g.leaf, d);
    QuotientLess(p, g.leaf, d + 1);
    assert (d + 1) * g.leaf == d * g.leaf + g.leaf;
  }

  /** The keys of a branch from k on. */
  lemma KeysOfBranch(g: Shape, k: nat, p: nat)
    requires g.Valid()
    ensures k < BranchStart(g, I1(g, k) + 1)
    ensures k <= p < BranchStart(g, I1(g, k) + 1) ==> I1(g, p) == I1(g, k)
  {
    var i := I1(g, k);
    QuotientLess(LeafNumber(g, k), g.interior, i + 1);
    QuotientLess(k, g.leaf, (i + 1) * g.interior);
    assert (i + 1) * g.interior * g.leaf == BranchStart(g, i + 1);
    QuotientLess(LeafNumber(g, p), g.interior, i + 1);
    QuotientLess(p, g.leaf, (i + 1) * g.interior);
    QuotientLess(LeafNumber(g, p), g.interior, i);
    QuotientLess(p, g.leaf, i * g.interior);
    QuotientLess(LeafNumber(g, k), g.interior, i);
    QuotientLess(k, g.leaf, i * g.interior);
  }

  // ----- the tree

  function EmptyNode<V>(g: Shape): Node<V> { seq(g.interior, _ => None) }
  function EmptyLeaf<V>(g: Shape): Leaf<V> { seq(g.leaf, _ => None) }

  ghost predicate NodeOk<V>(g: Shape, n: Node<V>) {
    |n| == g.interior && forall i :: 0 <= i < g.interior && n[i].Some? ==> |n[i].value| == g.leaf
  }

  ghost predicate TreeOk<V>(g: Shape, root: Root<V>) {
    && g.Valid() && |root| == g.interior
    && forall i :: 0 <= i < g.interior && root[i].Some? ==> NodeOk(g, root[i].value)
  }

  /** The leaf that holds a page number, if it has been made. */
  function LeafOf<V>(g: Shape, root: Root<V>, k: nat): Option<Leaf<V>>
    requires g.Valid()
  {
    if I1(g, k) >= |root| || root[I1(g, k)].None? || |root[I1(g, k)].value| != g.interior then None
    else root[I1(g, k)].value[I2(g, k)]
  }

  /** What the tree stores for a page number. */
  function Slot<V>(g: Shape, root: Root<V>, k: nat): Option<V>
    requires g.Valid()
  {
    match LeafOf(g, root, k)
    case Some(leaf) => if |leaf| == g.leaf then leaf[I3(g, k)] else None
    case None => None
  }

  // ----- the three writes

  function AddNode<V>(g: Shape, root: Root<V>, k: nat): Root<V>
    requires TreeOk(g, root) && I1(g, k) < g.interior
  {
    root[I1(g, k) := Some(EmptyNode(g))]
  }

  lemma AddNodeSees<V>(g: Shape, root: Root<V>, k: nat, p: nat)
    requires TreeOk(g, root) && I1(g, k) < g.interior && root[I1(g, k)].None?
    ensures TreeOk(g, AddNode(g, root, k)) && LeafOf(g, AddNode(g, root, k), p) == LeafOf(g, root, p)
  {
  }

  function SetLeaf<V>(g: Shape, root: Root<V>, k: nat, leaf: Leaf<V>): Root<V>
    requires TreeOk(g, root) && I1(g, k) < g.interior && root[I1(g, k)].Some?
  {
    root[I1(g, k) := Some(root[I1(g, k)].value[I2(g, k) := Some(leaf)])]
  }

  lemma SetLeafSees<V>(g: Shape, root: Root<V>, k: nat, leaf: Leaf<V>, p: nat)
    requires TreeOk(g, root) && I1(g, k) < g.interior && root[I1(g, k)].Some? && |leaf| == g.leaf
    ensures TreeOk(g, SetLeaf(g, root, k, leaf))
    ensures LeafOf(g, SetLeaf(g, root, k, leaf), p) ==
            if LeafNumber(g, p) == LeafNumber(g, k) then Some(leaf) else LeafOf(g, root, p)
  {
    Indices(g, p, k);
    var n := root[I1(g, k)].value;
    assert NodeOk(g, n[I2(g, k) := Some(leaf)]);
  }

  // ----- the tree as a map

  /** The tree stores the given map. */
  ghost predicate Stores<V>(g: Shape, root: Root<V>, contents: map<int, V>)
    requires g.Valid()
  {
    && (forall k :: k in contents ==> 0 <= k < g.Pages())
    && forall k: nat {:trigger Slot(g, root, k)} ::
         Slot(g, root, k) == if k in contents then Some(contents[k]) else None
  }

  /** Every page number from first to last has a leaf. */
  ghost predicate Ensured<V>(g: Shape, root: Root<V>, first: int, last: int)
    requires g.Valid()
  {
    forall k: nat {:trigger LeafOf(g, root, k)} :: first <= k <= last ==> LeafOf(g, root, k).Some?
  }

  /** Leaves are never lost, and nothing stored changes. */
  ghost predicate Grown<V>(g: Shape, before: Root<V>, after: Root<V>)
    requires g.Valid()
  {
    && (forall k: nat {:trigger LeafOf(g, after, k)} ::
          LeafOf(g, before, k).Some? ==> LeafOf(g, after, k) == LeafOf(g, before, k))
    && (forall k: nat {:trigger Slot(g, after, k)} :: Slot(g, after, k) == Slot(g, before, k))
  }

  /** No page from first up to, but not including, end is mapped. */
  ghost predicate NoneMapped<V>(contents: map<int, V>, first: int, end: int) {
    forall k :: first <= k < end ==> k !in contents
  }

  class PageMap<V> {
    const g: Shape
    var root: Root<V>
    var memory: nat                    // how many more nodes and leaves the allocator will supply
    ghost var contents: map<int, V>

    ghost predicate Valid()
      reads this
    {
      TreeOk(g, root) && Stores(g, root, contents)
    }

    /** A map for page numbers of the given number of bits. */
    constructor (bits: nat, memory: nat)
      requires 2 <= bits < 64
      ensures Valid() && contents == map[] && g.Pages() == Pow2(bits)
    {
      ShapeHoldsAll(bits);
      g := ShapeFor(bits);
      root, contents, this.memory := seq(ShapeFor(bits).interior, _ => None), map[], memory;
    }

    /** The value for a page number; nothing for numbers out of range. */
    method Get(k: nat) returns (v: Option<V>)
      requires Valid()
      ensures v == if k in contents then Some(contents[k]) else None
    {
      ghost var stored := Slot(g, root, k);
      InRange(g, k);
      if k >= g.Pages() || root[I1(g, k)].None? || root[I1(g, k)].value[I2(g, k)].None? {
        return None;
      }
      return root[I1(g, k)].value[I2(g, k)].value[I3(g, k)];
    }

    /** Store a value, or nothing, for a page number that has been ensured. */
    method Set(k: nat, v: Option<V>)
      requires Valid() && k < g.Pages() && LeafOf(g, root, k).Some?
      modifies this
      ensures Valid() && memory == old(memory)
      ensures contents == if v.Some? then old(contents)[k := v.value] else old(contents) - {k}
      ensures forall p: nat {:trigger LeafOf(g, root, p)} :: LeafOf(g, root, p).Some? <==> old(LeafOf(g, root, p)).Some?
    {
      ghost var was := root;
      var leaf := root[I1(g, k)].value[I2(g, k)].value;
      root := SetLeaf(g, root, k, leaf[I3(g, k) := v]);
      contents := if v.Some? then contents[k := v.value] else contents - {k};
      SetLeafSees(g, was, k, leaf[I3(g, k) := v], k);
      forall p: nat
        ensures LeafOf(g, root, p).Some? <==> LeafOf(g, was, p).Some?
        ensures Slot(g, root, p) == if p == k then v else Slot(g, was, p)
      {
        SetLeafSees(g, was, k, leaf[I3(g, k) := v], p);
        Indices(g, p, k);
      }
    }

    /** Make the leaf that covers one key, if it is not there yet. */
    method EnsureLeaf(key: nat) returns (ok: bool)
      requires Valid() && I1(g, key) < g.interior
      modifies this`root, this`memory
      ensures Valid() && memory <= old(memory) && Grown(g, old(root), root)
      ensures ok ==> Ensured(g, root, key, LeafStart(g, LeafNumber(g, key) + 1) - 1)
      ensures !ok ==> memory == 0
      ensures ok <==> old(memory) >= Missing(g, old(root), key)
      ensures ok ==> memory == old(memory) - Missing(g, old(root), key)
    {
      ghost var was := root;
      if root[I1(g, key)].None? {
        if memory == 0 {
          return false;
        }
        memory := memory - 1;
        AddNodeGrows(g, root, key);
        root := AddNode(g, root, key);
      }
      if root[I1(g, key)].value[I2(g, key)].None? {
        if memory == 0 {
          return false;
        }
        memory := memory - 1;
        AddLeafGrows(g, root, key);
        root := SetLeaf(g, root, key, EmptyLeaf(g));
      }
      LeafCovers(g, root, key);
      return true;
    }

    /** Make room for the page numbers start .. start + n - 1, where the sum is taken in 64 bits. What is stored does
        not change, even when memory or the range of page numbers runs out half way. */
    method Ensure(start: nat, n: nat) returns (ok: bool)
      requires Valid() && start < WORD && n < WORD
      modifies this`root, this`memory
      ensures Valid() && Grown(g, old(root), root)
      ensures ok ==> Ensured(g, root, start, LastKey(start, n))
      ensures ok && start <= LastKey(start, n) ==> LastKey(start, n) < g.Pages()
      ensures !ok ==> start <= LastKey(start, n) && (LastKey(start, n) >= g.Pages() || memory == 0)
    {
      var last: int, key: int := LastKey(start, n), start;
      while key <= last
        invariant Valid() && Grown(g, old(root), root) && start <= key
        invariant Ensured(g, root, start, key - 1)
        decreases last - key
      {
        InRange(g, key);
        if I1(g, key) >= g.interior {
          return false;
        }
        var made := EnsureLeaf(key);
        if !made {
          return false;
        }
        KeysOfLeaf(g, key, key);
        key := LeafStart(g, LeafNumber(g, key) + 1);
      }
      if start <= last {
        InRange(g, last);
        assert LeafOf(g, root, last).Some?;
      }
      return true;
    }

    /** The value at the first mapped page number at or after k. */
    method Next(k: nat) returns (v: Option<V>, ghost at: nat)
      requires Valid()
      ensures v.Some? ==> k <= at && at in contents && v.value == contents[at] && NoneMapped(contents, k, at)
      ensures v.None? ==> NoneMapped(contents, k, g.Pages())
    {
      var key := k;
      while key < g.Pages()
        invariant key >= k && NoneMapped(contents, k, key)
        decreases g.Pages() - key
      {
        InRange(g, key);
        if root[I1(g, key)].None? {
          SkipBranch(g, root, contents, key);
          key := BranchStart(g, I1(g, key) + 1);
        } else {
          KeysOfLeaf(g, key, key);
          var leaf := root[I1(g, key)].value[I2(g, key)];
          if leaf.Some? {
            v, at := ScanLeaf(leaf.value, key, k);
            if v.Some? {
              return;
            }
          } else {
            SkipLeaf(g, root, contents, key);
          }
          key := LeafStart(g, LeafNumber(g, key) + 1);
        }
      }
      return None, 0;
    }

    /** The scan forward in one leaf. */
    method ScanLeaf(leaf: Leaf<V>, key: nat, ghost k: nat) returns (v: Option<V>, ghost at: nat)
      requires Valid() && LeafOf(g, root, key) == Some(leaf) && k <= key && NoneMapped(contents, k, key)
      ensures v.Some? ==> k <= at && at in contents && v.value == contents[at] && NoneMapped(contents, k, at)
      ensures v.None? ==> NoneMapped(contents, k, LeafStart(g, LeafNumber(g, key) + 1))
    {
      KeysOfLeaf(g, key, key);
      ghost var start := LeafStart(g, LeafNumber(g, key));
      var i := I3(g, key);
      while i < g.leaf
        invariant I3(g, key) <= i <= g.leaf
        invariant NoneMapped(contents, k, start + i)
      {
        InLeaf(g, root, contents, key, i);
        if leaf[i].Some? {
          return leaf[i], start + i;
        }
        i := i + 1;
      }
      return None, 0;
    }
  }

  /** How many nodes and leaves have to be made for a key. */
  function Missing<V>(g: Shape, root: Root<V>, k: nat): nat
    requires g.Valid()
  {
    if LeafOf(g, root, k).Some? then 0
    else if I1(g, k) < |root| && root[I1(g, k)].Some? then 1
    else 2
  }

  /** start + n - 1 in 64-bit arithmetic. */
  function LastKey(start: nat, n: nat): (last: nat)
    ensures n >= 1 && start + n <= WORD ==> last == start + n - 1
  {
    (start + n + WORD - 1) % WORD
  }

  lemma AddNodeGrows<V>(g: Shape, root: Root<V>, k: nat)
    requires TreeOk(g, root) && I1(g, k) < g.interior && root[I1(g, k)].None?
    ensures TreeOk(g, AddNode(g, root, k)) && Grown(g, root, AddNode(g, root, k))
  {
    AddNodeSees(g, root, k, k);
    forall p: nat
      ensures LeafOf(g, AddNode(g, root, k), p) == LeafOf(g, root, p)
    {
      AddNodeSees(g, root, k, p);
    }
  }

  lemma AddLeafGrows<V>(g: Shape, root: Root<V>, k: nat)
    requires TreeOk(g, root) && I1(g, k) < g.interior && root[I1(g, k)].Some? && LeafOf(g, root, k).None?
    ensures var after := SetLeaf(g, root, k, EmptyLeaf(g));
            TreeOk(g, after) && Grown(g, root, after) && LeafOf(g, after, k).Some?
  {
    var after := SetLeaf(g, root, k, EmptyLeaf(g));
    forall p: nat
      ensures LeafOf(g, root, p).Some? ==> LeafOf(g, after, p) == LeafOf(g, root, p)
      ensures Slot(g, after, p) == Slot(g, root, p)
    {
      SetLeafSees(g, root, k, EmptyLeaf(g), p);
      Indices(g, p, k);
    }
    SetLeafSees(g, root, k, EmptyLeaf(g), k);
  }

  /** A leaf covers all page numbers that differ only in the last index. */
  lemma LeafCovers<V>(g: Shape, root: Root<V>, k: nat)
    requires g.Valid() && LeafOf(g, root, k).Some?
    ensures Ensured(g, root, k, LeafStart(g, LeafNumber(g, k) + 1) - 1)
  {
    forall p: nat | k <= p <= LeafStart(g, LeafNumber(g, k) + 1) - 1
      ensures LeafOf(g, root, p).Some?
    {
      KeysOfLeaf(g, k, p);
    }
  }

  lemma SkipBranch<V>(g: Shape, root: Root<V>, contents: map<int, V>, key: nat)
    requires TreeOk(g, root) && Stores(g, root, contents) && I1(g, key) < g.interior && root[I1(g, key)].None?
    ensures key < BranchStart(g, I1(g, key) + 1) && NoneMapped(contents, key, BranchStart(g, I1(g, key) + 1))
  {
    KeysOfBranch(g, key, key);
    forall p | key <= p < BranchStart(g, I1(g, key) + 1)
      ensures p !in contents
    {
      KeysOfBranch(g, key, p);
      assert Slot(g, root, p).None?;
    }
  }

  lemma SkipLeaf<V>(g: Shape, root: Root<V>, contents: map<int, V>, key: nat)
    requires g.Valid() && Stores(g, root, contents) && LeafOf(g, root, key).None?
    ensures NoneMapped(contents, key, LeafStart(g, LeafNumber(g, key) + 1))
  {
    forall p | key <= p < LeafStart(g, LeafNumber(g, key) + 1)
      ensures p !in contents
    {
      KeysOfLeaf(g, key, p);
      assert Slot(g, root, p).None?;
    }
  }

  /** Position i of the leaf of key holds the value of one page number. */
  lemma InLeaf<V>(g: Shape, root: Root<V>, contents: map<int, V>, key: nat, i: nat)
    requires TreeOk(g, root) && Stores(g, root, contents) && LeafOf(g, root, key).Some? && i < g.leaf
    ensures |LeafOf(g, root, key).value| == g.leaf
    ensures var p := LeafStart(g, LeafNumber(g, key)) + i;
            LeafOf(g, root, key).value[i] == if p in contents then Some(contents[p]) else None
  {
    var p := LeafStart(g, LeafNumber(g, key)) + i;
    Quotient(p, g.leaf, LeafNumber(g, key), i);
    assert NodeOk(g, root[I1(g, key)].value);
    assert Slot(g, root, p) == LeafOf(g, root, key).value[i];
  }
}
