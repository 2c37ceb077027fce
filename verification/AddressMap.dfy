/** A map from addresses to values in three levels: a hash table of 1 MB clusters, the blocks of 128 bytes of a cluster,
    and the entries of a block. */
module AddressMaps {
  import opened Common

  const BLOCK_SIZE: nat := 128
  const CLUSTER_BLOCKS: nat := 8192
  const CLUSTER_SIZE: nat := 1048576
  const HASH_SIZE: nat := 4096
  const HASH_MULTIPLIER: nat := 2654435769

  datatype Entry<V> = Entry(key: nat, value: V)
  datatype Cluster<V> = Cluster(id: nat, blocks: seq<seq<Entry<V>>>)

  /** The hash table: a chain of clusters for every hash value. */
  type Table<V> = seq<seq<Cluster<V>>>

  /** Multiplicative hashing in 32 bits; the top 12 bits are the hash. */
  function HashInt(x: nat): (h: nat)
    ensures h < HASH_SIZE
  {
    var m := (x % 0x1_0000_0000) * HASH_MULTIPLIER % 0x1_0000_0000;
    m / 0x10_0000
  }

  function ClusterId(num: nat): nat { num / CLUSTER_SIZE }

  function BlockId(num: nat): (b: nat)
    ensures b < CLUSTER_BLOCKS
  {
    num / BLOCK_SIZE % CLUSTER_BLOCKS
  }

  /** Two addresses share a block exactly when they share cluster and block number. */
  lemma SameBlock(a: nat, b: nat)
    ensures ClusterId(a) == ClusterId(b) && BlockId(a) == BlockId(b) <==> a / BLOCK_SIZE == b / BLOCK_SIZE
  {
    assert a / CLUSTER_SIZE == a / BLOCK_SIZE / CLUSTER_BLOCKS;
    assert b / CLUSTER_SIZE == b / BLOCK_SIZE / CLUSTER_BLOCKS;
  }

  // ----- chains

  function FindCluster<V>(chain: seq<Cluster<V>>, id: nat): (r: Option<nat>)
    ensures r.Some? ==> r.value < |chain| && chain[r.value].id == id
    ensures r.None? ==> forall i :: 0 <= i < |chain| ==> chain[i].id != id
  {
    if chain == [] then None
    else if chain[0].id == id then Some(0)
    else match FindCluster(chain[1..], id) case Some(i) => Some(i + 1) case None => None
  }

  function FindEntry<V>(chain: seq<Entry<V>>, key: nat): (r: Option<nat>)
    ensures r.Some? ==> r.value < |chain| && chain[r.value].key == key
    ensures r.None? ==> forall i :: 0 <= i < |chain| ==> chain[i].key != key
  {
    if chain == [] then None
    else if chain[0].key == key then Some(0)
    else match FindEntry(chain[1..], key) case Some(i) => Some(i + 1) case None => None
  }

  // ----- the map a table stands for

  ghost predicate ClusterOk<V>(c: Cluster<V>, h: nat) {
    && HashInt(c.id) == h && |c.blocks| == CLUSTER_BLOCKS
    && forall b :: 0 <= b < CLUSTER_BLOCKS ==> BlockOk(c.blocks[b], c.id, b)
  }

  /** The entries of a block belong there and have distinct keys. */
  ghost predicate BlockOk<V>(chain: seq<Entry<V>>, id: nat, b: nat) {
    && (forall i :: 0 <= i < |chain| ==> ClusterId(chain[i].key) == id && BlockId(chain[i].key) == b)
    && (forall i, j :: 0 <= i < j < |chain| ==> chain[i].key != chain[j].key)
  }

  ghost predicate ChainOk<V>(chain: seq<Cluster<V>>, h: nat) {
    && (forall i :: 0 <= i < |chain| ==> ClusterOk(chain[i], h))
    && (forall i, j :: 0 <= i < j < |chain| ==> chain[i].id != chain[j].id)
  }

  ghost predicate TableOk<V>(t: Table<V>) {
    |t| == HASH_SIZE && forall h :: 0 <= h < HASH_SIZE ==> ChainOk(t[h], h)
  }

  /** The entries of the block an address lies in. */
  function Block<V>(t: Table<V>, num: nat): (chain: seq<Entry<V>>)
    requires |t| == HASH_SIZE
  {
    var clusters := t[HashInt(ClusterId(num))];
    match FindCluster(clusters, ClusterId(num))
    case Some(i) => if |clusters[i].blocks| == CLUSTER_BLOCKS then clusters[i].blocks[BlockId(num)] else []
    case None => []
  }

  /** The value stored for a key. */
  function Lookup<V>(t: Table<V>, key: nat): Option<V>
    requires |t| == HASH_SIZE
  {
    ChainLookup(Block(t, key), key)
  }

  /** All addresses of a block see the same entries, and they are the entries with keys in that block. */
  lemma BlockHolds<V>(t: Table<V>, num: nat, key: nat)
    requires TableOk(t)
    ensures key / BLOCK_SIZE == num / BLOCK_SIZE ==> Block(t, key) == Block(t, num)
    ensures BlockOk(Block(t, num), ClusterId(num), BlockId(num))
  {
    SameBlock(key, num);
    var h := HashInt(ClusterId(num));
    assert ChainOk(t[h], h);
    match FindCluster(t[h], ClusterId(num))
    case Some(i) => assert ClusterOk(t[h][i], h);
    case None =>
  }

  lemma EntryIsLookup<V>(t: Table<V>, num: nat, i: nat)
    requires TableOk(t) && i < |Block(t, num)|
    ensures var e := Block(t, num)[i]; e.key / BLOCK_SIZE == num / BLOCK_SIZE && Lookup(t, e.key) == Some(e.value)
  {
    var e := Block(t, num)[i];
    BlockHolds(t, num, e.key);
    SameBlock(e.key, num);
  }

  // ----- writing to a table

  function NewCluster<V>(id: nat): Cluster<V> {
    Cluster(id, seq(CLUSTER_BLOCKS, _ => []))
  }

  /** A new empty cluster at the front of its chain leaves all blocks as they were. */
  lemma AddCluster<V>(t: Table<V>, id: nat)
    requires TableOk(t) && FindCluster(t[HashInt(id)], id).None?
    ensures var h := HashInt(id); var t' := t[h := [NewCluster(id)] + t[h]];
            && TableOk(t') && FindCluster(t'[h], id) == Some(0)
            && forall k: nat {:trigger Block(t', k)} :: Block(t', k) == Block(t, k)
  {
    var h := HashInt(id);
    var chain := [NewCluster(id)] + t[h];
    assert ChainOk(t[h], h);
    assert ChainOk(chain, h) by {
      assert ClusterOk(chain[0], h);
      assert forall i :: 0 < i < |chain| ==> chain[i] == t[h][i - 1];
    }
    var t' := t[h := chain];
    forall k: nat
      ensures Block(t', k) == Block(t, k)
    {
      assert chain[1..] == t[h];
    }
  }

  /** The table with one block of one cluster replaced. */
  function SetBlock<V>(t: Table<V>, num: nat, i: nat, chain: seq<Entry<V>>): Table<V>
    requires |t| == HASH_SIZE && i < |t[HashInt(ClusterId(num))]|
    requires |t[HashInt(ClusterId(num))][i].blocks| == CLUSTER_BLOCKS
  {
    var h := HashInt(ClusterId(num));
    var c := t[h][i];
    t[h := t[h][i := c.(blocks := c.blocks[BlockId(num) := chain])]]
  }

  /** Replacing a cluster by one with the same id does not change which position is found. */
  lemma {:induction false} FindAfterUpdate<V>(chain: seq<Cluster<V>>, i: nat, c: Cluster<V>, id: nat)
    requires i < |chain| && chain[i].id == c.id
    ensures FindCluster(chain[i := c], id) == FindCluster(chain, id)
  {
    if i > 0 {
      assert chain[i := c][1..] == chain[1..][i - 1 := c];
      FindAfterUpdate(chain[1..], i - 1, c, id);
    } else {
      assert chain[i := c][1..] == chain[1..];
    }
  }

  /** Writing a block changes what the addresses of that block see, and nothing else. */
  lemma SetBlockSees<V>(t: Table<V>, num: nat, i: nat, chain: seq<Entry<V>>, k: nat)
    requires TableOk(t) && FindCluster(t[HashInt(ClusterId(num))], ClusterId(num)) == Some(i)
    requires |t[HashInt(ClusterId(num))][i].blocks| == CLUSTER_BLOCKS
    ensures Block(SetBlock(t, num, i, chain), k) == if k / BLOCK_SIZE == num / BLOCK_SIZE then chain else Block(t, k)
  {
    var h := HashInt(ClusterId(num));
    var c := t[h][i];
    SameBlock(k, num);
    FindAfterUpdate(t[h], i, c.(blocks := c.blocks[BlockId(num) := chain]), ClusterId(k));
  }

  lemma SetBlockKeeps<V>(t: Table<V>, num: nat, i: nat, chain: seq<Entry<V>>)
    requires TableOk(t) && FindCluster(t[HashInt(ClusterId(num))], ClusterId(num)) == Some(i)
    requires |t[HashInt(ClusterId(num))][i].blocks| == CLUSTER_BLOCKS
    requires BlockOk(chain, ClusterId(num), BlockId(num))
    ensures TableOk(SetBlock(t, num, i, chain))
  {
    var h := HashInt(ClusterId(num));
    var c := t[h][i];
    var c' := c.(blocks := c.blocks[BlockId(num) := chain]);
    assert ChainOk(t[h], h) && ClusterOk(c, h);
    assert ClusterOk(c', h);
    assert ChainOk(t[h][i := c'], h);
  }

  /** The value a chain of entries gives a key. */
  function ChainLookup<V>(chain: seq<Entry<V>>, key: nat): Option<V> {
    match FindEntry(chain, key) case Some(i) => Some(chain[i].value) case None => None
  }

  /** With distinct keys, any entry with the key is the one that is found. */
  lemma EntryFound<V>(chain: seq<Entry<V>>, id: nat, b: nat, i: nat)
    requires BlockOk(chain, id, b) && i < |chain|
    ensures ChainLookup(chain, chain[i].key) == Some(chain[i].value)
  {
  }

  /** Two chains with distinct keys that hold the same entries for a key give it the same value. */
  lemma SameEntries<V>(one: seq<Entry<V>>, two: seq<Entry<V>>, id: nat, b: nat, key: nat)
    requires BlockOk(one, id, b) && BlockOk(two, id, b)
    requires forall i :: 0 <= i < |one| && one[i].key == key ==> one[i] in two
    requires forall i :: 0 <= i < |two| && two[i].key == key ==> two[i] in one
    ensures ChainLookup(one, key) == ChainLookup(two, key)
  {
    match FindEntry(one, key)
    case Some(i) => EntryFound(one, id, b, i);
    case None =>
  }

  function WithEntry<V>(chain: seq<Entry<V>>, key: nat, value: V): seq<Entry<V>> {
    match FindEntry(chain, key)
    case Some(i) => chain[i := Entry(key, value)]
    case None => [Entry(key, value)] + chain
  }

  lemma WithEntrySees<V>(chain: seq<Entry<V>>, id: nat, b: nat, key: nat, value: V)
    requires BlockOk(chain, id, b) && ClusterId(key) == id && BlockId(key) == b
    ensures BlockOk(WithEntry(chain, key, value), id, b)
    ensures ChainLookup(WithEntry(chain, key, value), key) == Some(value)
    ensures forall k: nat :: k != key ==> ChainLookup(WithEntry(chain, key, value), k) == ChainLookup(chain, k)
  {
    var chain' := WithEntry(chain, key, value);
    match FindEntry(chain, key) {
      case Some(i) => EntryFound(chain', id, b, i);
      case None => assert forall j :: 0 < j < |chain'| ==> chain'[j] == chain[j - 1];
    }
    forall k: nat | k != key
      ensures ChainLookup(chain', k) == ChainLookup(chain, k)
    {
      forall j | 0 <= j < |chain| && chain[j].key == k
        ensures chain[j] in chain'
      {
        assert chain[j] == if FindEntry(chain, key).Some? then chain'[j] else chain'[j + 1];
      }
      SameEntries(chain, chain', id, b, k);
    }
  }

  function WithoutEntry<V>(chain: seq<Entry<V>>, i: nat): seq<Entry<V>>
    requires i < |chain|
  {
    chain[..i] + chain[i + 1..]
  }

  lemma WithoutEntrySees<V>(chain: seq<Entry<V>>, id: nat, b: nat, i: nat)
    requires BlockOk(chain, id, b) && i < |chain|
    ensures BlockOk(WithoutEntry(chain, i), id, b)
    ensures ChainLookup(WithoutEntry(chain, i), chain[i].key).None?
    ensures forall k: nat :: k != chain[i].key ==> ChainLookup(WithoutEntry(chain, i), k) == ChainLookup(chain, k)
  {
    var chain' := WithoutEntry(chain, i);
    assert forall j :: 0 <= j < |chain'| ==> chain'[j] == if j < i then chain[j] else chain[j + 1];
    forall k: nat | k != chain[i].key
      ensures ChainLookup(chain', k) == ChainLookup(chain, k)
    {
      forall j | 0 <= j < |chain| && chain[j].key == k
        ensures chain[j] in chain'
      {
        assert chain[j] == if j < i then chain'[j] else chain'[j - 1];
      }
      SameEntries(chain, chain', id, b, k);
    }
  }

  // ----- FindInside

  /** Does the range of a stored key contain the address? A range of size 0 contains its own start. */
  predicate Contains(key: nat, size: nat, num: nat) {
    key == num || key <= num < key + size
  }

  /** The stored ranges do not overlap and none is larger than maxSize. */
  ghost predicate Ranges<V>(t: Table<V>, sizeOf: V -> nat, maxSize: nat)
    requires |t| == HASH_SIZE
  {
    && (forall a, b {:trigger Lookup(t, a), Lookup(t, b)} ::
          0 <= a < b && Lookup(t, a).Some? && Lookup(t, b).Some? ==> a + sizeOf(Lookup(t, a).value) <= b)
    && (forall a {:trigger Lookup(t, a)} :: 0 <= a && Lookup(t, a).Some? ==> sizeOf(Lookup(t, a).value) <= maxSize)
  }

  /** No stored key lies in (lo, hi]. */
  ghost predicate Vacant<V>(t: Table<V>, lo: int, hi: int)
    requires |t| == HASH_SIZE
  {
    forall k: nat {:trigger Lookup(t, k)} :: lo < k <= hi ==> Lookup(t, k).None?
  }

  ghost predicate NoneContains<V>(t: Table<V>, sizeOf: V -> nat, num: nat)
    requires |t| == HASH_SIZE
  {
    forall k: nat {:trigger Lookup(t, k)} :: Lookup(t, k).Some? ==> !Contains(k, sizeOf(Lookup(t, k).value), num)
  }

  /** What a scan of one block finds: an entry that contains the address, or whether any key is at or below it. */
  datatype Scan = Found(at: nat) | Passed(smaller: bool)

  method ScanBlock<V>(chain: seq<Entry<V>>, sizeOf: V -> nat, num: nat) returns (r: Scan)
    ensures r.Found? ==> r.at < |chain| && Contains(chain[r.at].key, sizeOf(chain[r.at].value), num)
    ensures r.Passed? ==> forall i :: 0 <= i < |chain| ==> !Contains(chain[i].key, sizeOf(chain[i].value), num)
    ensures r.Passed? ==> (r.smaller <==> exists i :: 0 <= i < |chain| && chain[i].key <= num)
  {
    var hadSmallerKey := false;
    var i := 0;
    while i < |chain|
      invariant 0 <= i <= |chain|
      invariant forall j :: 0 <= j < i ==> !Contains(chain[j].key, sizeOf(chain[j].value), num)
      invariant hadSmallerKey <==> exists j :: 0 <= j < i && chain[j].key <= num
    {
      var e := chain[i];
      if e.key <= num {
        if e.key == num || num < e.key + sizeOf(e.value) {
          return Found(i);
        }
        hadSmallerKey := true;
      }
      i := i + 1;
    }
    return Passed(hadSmallerKey);
  }

  /** A block without keys at or below the address is passed over. */
  lemma PassBlock<V>(t: Table<V>, num: nat, key: nat)
    requires TableOk(t) && num <= key && Vacant(t, num, key)
    requires forall i :: 0 <= i < |Block(t, num)| ==> Block(t, num)[i].key > key
    ensures Vacant(t, num - num % BLOCK_SIZE - 1, key)
  {
    forall k: nat | num - num % BLOCK_SIZE - 1 < k <= key
      ensures Lookup(t, k).None?
    {
      if k <= num {
        BlockHolds(t, num, k);
      }
    }
  }

  /** A cluster that does not exist is passed over. */
  lemma PassCluster<V>(t: Table<V>, num: nat, key: nat)
    requires TableOk(t) && num <= key && Vacant(t, num, key)
    requires FindCluster(t[HashInt(ClusterId(num))], ClusterId(num)).None?
    ensures Vacant(t, num - num % CLUSTER_SIZE - 1, key)
  {
    forall k: nat | num - num % CLUSTER_SIZE - 1 < k <= key
      ensures Lookup(t, k).None?
    {
      if k <= num {
        assert ClusterId(k) == ClusterId(num);
      }
    }
  }

  /** A key at or below the address whose range does not contain it settles the matter: by disjointness no lower
      range can reach it. */
  lemma SmallerKeySettles<V>(t: Table<V>, sizeOf: V -> nat, maxSize: nat, num: nat, key: nat, at: nat)
    requires TableOk(t) && Ranges(t, sizeOf, maxSize) && num <= key && Vacant(t, num, key)
    requires at < |Block(t, num)| && Block(t, num)[at].key <= key
    requires forall i :: 0 <= i < |Block(t, num)| ==>
               !Contains(Block(t, num)[i].key, sizeOf(Block(t, num)[i].value), key)
    ensures NoneContains(t, sizeOf, key)
  {
    var e := Block(t, num)[at];
    EntryIsLookup(t, num, at);
    forall k: nat | Lookup(t, k).Some?
      ensures !Contains(k, sizeOf(Lookup(t, k).value), key)
    {
      if k / BLOCK_SIZE == num / BLOCK_SIZE {
        BlockHolds(t, num, k);
      } else {
        assert k <= key ==> k < e.key;
      }
    }
  }

  /** Beyond maxSize nothing can reach the address. */
  lemma TooFar<V>(t: Table<V>, sizeOf: V -> nat, maxSize: nat, num: nat, key: nat)
    requires |t| == HASH_SIZE && Ranges(t, sizeOf, maxSize) && num <= key && Vacant(t, num, key) && key - num > maxSize
    ensures NoneContains(t, sizeOf, key)
  {
  }

  /** Below the first cluster there is nothing left to search; otherwise the previous cluster exists. */
  lemma CrossCluster<V>(t: Table<V>, sizeOf: V -> nat, num: nat, key: nat)
    requires |t| == HASH_SIZE && Vacant(t, num - num % CLUSTER_SIZE - 1, key)
    ensures num < CLUSTER_SIZE ==> NoneContains(t, sizeOf, key)
    ensures num >= CLUSTER_SIZE ==> 0 <= num - num % CLUSTER_SIZE - 1 < num
  {
    if num < CLUSTER_SIZE {
      assert num % CLUSTER_SIZE == num;
    }
  }

  /** What a lookup sees after one block was written. */
  lemma WriteSees<V>(t: Table<V>, t': Table<V>, key: nat, i: nat, chain: seq<Entry<V>>)
    requires TableOk(t) && FindCluster(t[HashInt(ClusterId(key))], ClusterId(key)) == Some(i)
    requires |t[HashInt(ClusterId(key))][i].blocks| == CLUSTER_BLOCKS
    requires t' == SetBlock(t, key, i, chain)
    requires forall k: nat :: k != key ==> ChainLookup(chain, k) == ChainLookup(Block(t, key), k)
    ensures Lookup(t', key) == ChainLookup(chain, key)
    ensures forall k: nat {:trigger Lookup(t', k)} :: k != key ==> Lookup(t', k) == Lookup(t, k)
  {
    SetBlockSees(t, key, i, chain, key);
    forall k: nat | k != key
      ensures Lookup(t', k) == Lookup(t, k)
    {
      SetBlockSees(t, key, i, chain, k);
      BlockHolds(t, key, k);
    }
  }

  class AddressMap<V> {
    var table: Table<V>

    ghost predicate Valid()
      reads this
    {
      TableOk(table)
    }

    constructor ()
      ensures Valid() && forall key: nat {:trigger Lookup(table, key)} :: Lookup(table, key).None?
    {
      table := seq(HASH_SIZE, _ => []);
    }

    /** FindCluster without creation: the position of the cluster in its hash chain. */
    method ClusterAt(num: nat) returns (r: Option<nat>)
      requires Valid()
      ensures r == FindCluster(table[HashInt(ClusterId(num))], ClusterId(num))
    {
      var id := ClusterId(num);
      var chain := table[HashInt(id)];
      var i := 0;
      while i < |chain|
        invariant 0 <= i <= |chain|
        invariant forall j :: 0 <= j < i ==> chain[j].id != id
      {
        if chain[i].id == id {
          FirstCluster(chain, id, i);
          return Some(i);
        }
        i := i + 1;
      }
      return None;
    }

    /** Walk the entries of a block to the one with the key. */
    method EntryAt(chain: seq<Entry<V>>, key: nat) returns (r: Option<nat>)
      ensures r == FindEntry(chain, key)
    {
      var i := 0;
      while i < |chain|
        invariant 0 <= i <= |chain|
        invariant forall j :: 0 <= j < i ==> chain[j].key != key
      {
        if chain[i].key == key {
          FirstEntry(chain, key, i);
          return Some(i);
        }
        i := i + 1;
      }
      return None;
    }

    /** FindMutable: the value stored for the key. */
    method Find(key: nat) returns (r: Option<V>)
      requires Valid()
      ensures r == Lookup(table, key)
    {
      var chain := Block(table, key);
      var at := EntryAt(chain, key);
      return match at case Some(i) => Some(chain[i].value) case None => None;
    }

    /** FindCluster with creation. */
    method EnsureCluster(num: nat) returns (i: nat)
      requires Valid()
      modifies this
      ensures Valid() && FindCluster(table[HashInt(ClusterId(num))], ClusterId(num)) == Some(i)
      ensures i < |table[HashInt(ClusterId(num))]| && |table[HashInt(ClusterId(num))][i].blocks| == CLUSTER_BLOCKS
      ensures forall k: nat {:trigger Block(table, k)} :: Block(table, k) == old(Block(table, k))
    {
      var id := ClusterId(num);
      var h := HashInt(id);
      var c := ClusterAt(num);
      if c.Some? {
        i := c.value;
      } else {
        AddCluster(table, id);
        table := table[h := [NewCluster(id)] + table[h]];
        i := 0;
      }
      assert ChainOk(table[h], h) && ClusterOk(table[h][i], h);
    }

    /** Store a value for the key: the old value is replaced, or a new entry goes in front. No other key changes. */
    method Insert(key: nat, value: V)
      requires Valid()
      modifies this
      ensures Valid()
      ensures Lookup(table, key) == Some(value)
      ensures forall k: nat {:trigger Lookup(table, k)} :: k != key ==> Lookup(table, k) == old(Lookup(table, k))
    {
      var i := EnsureCluster(key);
      ghost var was := table;
      var chain := Block(table, key);
      var at := EntryAt(chain, key);
      BlockHolds(table, key, key);
      WithEntrySees(chain, ClusterId(key), BlockId(key), key, value);
      SetBlockKeeps(table, key, i, WithEntry(chain, key, value));
      if at.Some? {
        table := SetBlock(table, key, i, chain[at.value := Entry(key, value)]);
      } else {
        table := SetBlock(table, key, i, [Entry(key, value)] + chain);
      }
      WriteSees(was, table, key, i, WithEntry(chain, key, value));
    }

    /** Remove the key and hand back its value, if it has one. No other key changes. */
    method FindAndRemove(key: nat) returns (removed: Option<V>)
      requires Valid()
      modifies this
      ensures Valid() && removed == old(Lookup(table, key))
      ensures Lookup(table, key).None?
      ensures forall k: nat {:trigger Lookup(table, k)} :: k != key ==> Lookup(table, k) == old(Lookup(table, k))
    {
      var c := ClusterAt(key);
      if c.None? {
        return None;
      }
      var chain := Block(table, key);
      var at := EntryAt(chain, key);
      if at.None? {
        return None;
      }
      ghost var was := table;
      ghost var h := HashInt(ClusterId(key));
      assert ChainOk(table[h], h) && ClusterOk(table[h][c.value], h);
      BlockHolds(table, key, key);
      WithoutEntrySees(chain, ClusterId(key), BlockId(key), at.value);
      SetBlockKeeps(table, key, c.value, WithoutEntry(chain, at.value));
      removed := Some(chain[at.value].value);
      table := SetBlock(table, key, c.value, WithoutEntry(chain, at.value));
      WriteSees(was, table, key, c.value, WithoutEntry(chain, at.value));
    }

    /** The answer to a search for the range that contains key. */
    ghost predicate Answers(sizeOf: V -> nat, key: nat, r: Option<Entry<V>>)
      requires |table| == HASH_SIZE
      reads this
    {
      match r
      case Some(e) => Lookup(table, e.key) == Some(e.value) && Contains(e.key, sizeOf(e.value), key)
      case None => NoneContains(table, sizeOf, key)
    }

    /** The inner loop of FindInside: back through the blocks of one cluster. It ends with an answer, or at the
        first block with nothing found. */
    method SearchCluster(sizeOf: V -> nat, maxSize: nat, key: nat, from: nat)
      returns (done: bool, r: Option<Entry<V>>, num: nat)
      requires Valid() && Ranges(table, sizeOf, maxSize) && from <= key && Vacant(table, from, key)
      ensures done ==> Answers(sizeOf, key, r)
      ensures !done ==> num <= from && Vacant(table, num - num % CLUSTER_SIZE - 1, key)
    {
      done, r, num := true, None, from;
      while true
        invariant num <= from && Vacant(table, num, key) && done && r == None
        decreases num
      {
        var block := BlockId(num);
        var chain := Block(table, num);
        var scan := ScanBlock(chain, sizeOf, key);
        if scan.Found? {
          EntryIsLookup(table, num, scan.at);
          r := Some(chain[scan.at]);
          return;
        }
        if scan.smaller {
          ghost var at :| 0 <= at < |chain| && chain[at].key <= key;
          SmallerKeySettles(table, sizeOf, maxSize, num, key, at);
          return;
        }
        PassBlock(table, num, key);
        if block == 0 {
          FirstBlock(num);
          done := false;
          return;
        }
        StepBack(num);
        num := num - num % BLOCK_SIZE - 1;
        if key - num > maxSize {
          TooFar(table, sizeOf, maxSize, num, key);
          return;
        }
      }
    }

    /** The stored range that contains the address, if there is one. The search goes back block by block and
        cluster by cluster, and stops early at a smaller key or when it is further than maxSize away. */
    method FindInside(sizeOf: V -> nat, maxSize: nat, key: nat) returns (r: Option<Entry<V>>)
      requires Valid() && Ranges(table, sizeOf, maxSize)
      ensures r.Some? ==> Lookup(table, r.value.key) == Some(r.value.value)
                          && Contains(r.value.key, sizeOf(r.value.value), key)
      ensures r.None? ==> NoneContains(table, sizeOf, key)
    {
      var num: nat := key;
      while true
        invariant num <= key && Vacant(table, num, key)
        decreases num
      {
        var c := ClusterAt(num);
        if c.Some? {
          var done;
          done, r, num := SearchCluster(sizeOf, maxSize, key, num);
          if done {
            return;
          }
        } else {
          PassCluster(table, num, key);
        }
        CrossCluster(table, sizeOf, num, key);
        if num < CLUSTER_SIZE {
          return None;
        }
        num := num - num % CLUSTER_SIZE - 1;
        if key - num > maxSize {
          TooFar(table, sizeOf, maxSize, num, key);
          return None;
        }
      }
    }
  }

  lemma {:induction false} FirstCluster<V>(chain: seq<Cluster<V>>, id: nat, i: nat)
    requires i < |chain| && chain[i].id == id && forall j :: 0 <= j < i ==> chain[j].id != id
    ensures FindCluster(chain, id) == Some(i)
  {
    if i == 0 {
    } else {
      FirstCluster(chain[1..], id, i - 1);
    }
  }

  lemma {:induction false} FirstEntry<V>(chain: seq<Entry<V>>, key: nat, i: nat)
    requires i < |chain| && chain[i].key == key && forall j :: 0 <= j < i ==> chain[j].key != key
    ensures FindEntry(chain, key) == Some(i)
  {
    if i == 0 {
    } else {
      FirstEntry(chain[1..], key, i - 1);
    }
  }

  /** In the first block of a cluster, the start of the block is the start of the cluster. */
  lemma FirstBlock(num: nat)
    requires BlockId(num) == 0
    ensures num % BLOCK_SIZE == num % CLUSTER_SIZE
  {
    assert num / CLUSTER_SIZE == num / BLOCK_SIZE / CLUSTER_BLOCKS;
  }

  /** The previous block is in the same cluster. */
  lemma StepBack(num: nat)
    requires BlockId(num) != 0
    ensures num - num % BLOCK_SIZE - 1 >= 0 && ClusterId(num - num % BLOCK_SIZE - 1) == ClusterId(num)
  {
    assert num / CLUSTER_SIZE == num / BLOCK_SIZE / CLUSTER_BLOCKS;
  }
}
